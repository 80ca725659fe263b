/**
 * Face detector and writer (`detect_faces`): checks the cascade file, then
 * for every image runs the detector and, for every face found, writes the
 * resized crop to a path derived from the image name. The cascade
 * classifier, `cv2.imread` and the pixels are outside the model: the
 * detector's answer per image is an input, and an artifact records which
 * crop of which image was stored at which size.
 */
module Detector {
  import opened Wrappers
  import opened Strings
  import opened Resize

  /** `minSize=(64, 64)` passed to `detectMultiScale`. */
  const MinFace: nat := 64
  /** `width=64, height=64` passed to `image_resize`. */
  const OutputSide: nat := 64

  /** A detection `(x, y, w, h)` in source pixel coordinates. */
  datatype Rect = Rect(x: nat, y: nat, w: nat, h: nat)

  /** The detector never reports a region smaller than `minSize`. */
  type Face = r: Rect | r.w >= MinFace && r.h >= MinFace witness Rect(0, 0, MinFace, MinFace)

  /** What `cv2.imwrite` stores: the crop of `source` at `face`, resized to `size`. */
  datatype Artifact = Artifact(source: string, face: Rect, size: Resized)

  /** How `detect_faces` ends. */
  datatype Outcome =
    | Finished
    | CascadeNotFound        // RuntimeError raised before any image is touched
    | ReadFailed(image: string)  // `cv2.imread` gave None; `cvtColor` raises and the run stops

  /** Destination of every crop of `name`: `'data/' + name.replace('.jpg', '').replace('.png', '') + '.png'`. */
  function OutputPath(name: string): (p: string)
    ensures |p| >= |"data/"| + |".png"|
    ensures p[..5] == "data/" && p[|p| - 4..] == ".png"
  {
    "data/" + RemoveAll(RemoveAll(name, ".jpg"), ".png") + ".png"
  }

  /** The crop of one face, resized as `image_resize(cropped, width=64, height=64)` does. */
  function FaceArtifact(image: string, face: Face): (a: Artifact)
    ensures a.source == image && a.face == face
    ensures a.size.Scaled? && a.size.width == OutputSide
    ensures a.size.height * face.w <= face.h * OutputSide < (a.size.height + 1) * face.w
  {
    Artifact(image, face, TargetSize(face.h, face.w, Some(OutputSide), Some(OutputSide)))
  }

  /** The output directory: file path to stored artifact. */
  class OutputDir {
    var files: map<string, Artifact>

    constructor (files: map<string, Artifact>)
      ensures this.files == files
    {
      this.files := files;
    }

    /** `cv2.imwrite(path, artifact)`: creates or overwrites `path`. */
    method Write(path: string, artifact: Artifact)
      modifies this
      ensures files == old(files)[path := artifact]
    {
      files := files[path := artifact];
    }
  }

  /** The directory after the inner loop has written every face of `image`, in order. */
  function WriteFaces(files: map<string, Artifact>, image: string, faces: seq<Face>): (r: map<string, Artifact>)
    ensures r.Keys <= files.Keys + {OutputPath(image)}
    ensures forall p :: p in files && p != OutputPath(image) ==> p in r && r[p] == files[p]
    decreases |faces|
  {
    if faces == [] then files
    else WriteFaces(files[OutputPath(image) := FaceArtifact(image, faces[0])], image, faces[1..])
  }

  /** Result of a run: how it ended, the directory, and the images read with `cv2.imread`. */
  datatype Run = Run(outcome: Outcome, files: map<string, Artifact>, loaded: seq<string>)

  /** The outer loop over `images`, once the cascade file is known to exist. */
  function DetectAll(files: map<string, Artifact>, images: seq<string>, scan: string -> Option<seq<Face>>): (r: Run)
    ensures r.outcome != CascadeNotFound
    ensures 0 < |r.loaded| <= |images| || r.loaded == images == []
    decreases |images|
  {
    if images == [] then Run(Finished, files, [])
    else match scan(images[0])
      case None => Run(ReadFailed(images[0]), files, [images[0]])
      case Some(faces) =>
        var rest := DetectAll(WriteFaces(files, images[0], faces), images[1..], scan);
        rest.(loaded := [images[0]] + rest.loaded)
  }

  /** The images read are a prefix of `images`, taken in order. */
  lemma {:induction false} DetectAllReadsPrefix(files: map<string, Artifact>, images: seq<string>,
                                                scan: string -> Option<seq<Face>>)
    ensures DetectAll(files, images, scan).loaded == images[..|DetectAll(files, images, scan).loaded|]
    decreases |images|
  {
    if images != [] && scan(images[0]).Some? {
      var next := WriteFaces(files, images[0], scan(images[0]).value);
      DetectAllReadsPrefix(next, images[1..], scan);
      var rest := DetectAll(next, images[1..], scan).loaded;
      var loaded := DetectAll(files, images, scan).loaded;
      assert loaded == [images[0]] + rest;
      forall k | 0 <= k < |loaded|
        ensures loaded[k] == images[k]
      {
        if k > 0 {
          assert loaded[k] == rest[k - 1] == images[1..][k - 1];
        }
      }
    }
  }

  /**
   * A run that stops early stops at the first unreadable image: the last
   * image it read is the one reported, `cv2.imread` gave `None` for it, and
   * every image read before it was readable.
   */
  lemma {:induction false} DetectAllStopsAtFirstUnreadable(files: map<string, Artifact>, images: seq<string>,
                                                           scan: string -> Option<seq<Face>>)
    ensures DetectAll(files, images, scan).outcome.ReadFailed? ==>
              && |DetectAll(files, images, scan).loaded| > 0
              && DetectAll(files, images, scan).outcome.image
                 == DetectAll(files, images, scan).loaded[|DetectAll(files, images, scan).loaded| - 1]
              && scan(DetectAll(files, images, scan).outcome.image).None?
    ensures forall k :: 0 <= k < |DetectAll(files, images, scan).loaded| - 1 ==>
              scan(DetectAll(files, images, scan).loaded[k]).Some?
    decreases |images|
  {
    if images != [] && scan(images[0]).Some? {
      var next := WriteFaces(files, images[0], scan(images[0]).value);
      DetectAllStopsAtFirstUnreadable(next, images[1..], scan);
      var rest := DetectAll(next, images[1..], scan);
      var loaded := DetectAll(files, images, scan).loaded;
      assert loaded == [images[0]] + rest.loaded;
      forall k | 0 <= k < |loaded| - 1
        ensures scan(loaded[k]).Some?
      {
        if k > 0 {
          assert loaded[k] == rest.loaded[k - 1];
        }
      }
    }
  }

  /** The run finishes exactly when every image is readable, and then it has read them all. */
  lemma {:induction false} DetectAllFinishedIff(files: map<string, Artifact>, images: seq<string>,
                                                scan: string -> Option<seq<Face>>)
    ensures var r := DetectAll(files, images, scan);
            r.outcome == Finished ==> r.loaded == images
    ensures DetectAll(files, images, scan).outcome == Finished
            <==> forall k :: 0 <= k < |images| ==> scan(images[k]).Some?
    decreases |images|
  {
    if images != [] && scan(images[0]).Some? {
      var next := WriteFaces(files, images[0], scan(images[0]).value);
      DetectAllFinishedIff(next, images[1..], scan);
      assert forall k :: 1 <= k < |images| ==> images[k] == images[1..][k - 1];
    }
  }

  /** `detect_faces` as a function of the initial directory. */
  function Detect(files: map<string, Artifact>, images: seq<string>, cascadeExists: bool,
                  scan: string -> Option<seq<Face>>): (r: Run)
    ensures !cascadeExists <==> r.outcome == CascadeNotFound
    ensures !cascadeExists ==> r.files == files && r.loaded == []
  {
    if !cascadeExists then Run(CascadeNotFound, files, [])
    else DetectAll(files, images, scan)
  }

  /**
   * `detect_faces(directory, images, cascadefile)`. `cascadeExists` is
   * `os.path.isfile(cascadefile)`; `scan(image)` is `None` when
   * `cv2.imread` fails, otherwise the faces the cascade reports.
   */
  method DetectFaces(images: seq<string>, cascadeExists: bool, scan: string -> Option<seq<Face>>, out: OutputDir)
    returns (outcome: Outcome, loaded: seq<string>)
    modifies out
    ensures Run(outcome, out.files, loaded) == Detect(old(out.files), images, cascadeExists, scan)
    ensures !cascadeExists ==> outcome == CascadeNotFound && loaded == [] && out.files == old(out.files)
  {
    if !cascadeExists {
      return CascadeNotFound, [];
    }
    ghost var goal := DetectAll(out.files, images, scan);
    loaded := [];
    var i := 0;
    while i < |images|
      invariant 0 <= i <= |images|
      invariant goal == After(loaded, DetectAll(out.files, images[i..], scan))
    {
      var image := images[i];
      assert images[i..][0] == image && images[i..][1..] == images[i + 1..];
      DetectAllStep(out.files, images[i..], scan);
      var found := scan(image);
      if found.None? {
        return ReadFailed(image), loaded + [image];
      }
      AfterAfter(loaded, [image], DetectAll(WriteFaces(out.files, image, found.value), images[i + 1..], scan));
      loaded := loaded + [image];
      WriteAllFaces(image, found.value, out);
      i := i + 1;
    }
    assert images[i..] == [] && loaded + [] == loaded;
    outcome := Finished;
  }

  /** A run that continues after `done` images have been read. */
  function After(done: seq<string>, rest: Run): (r: Run)
    ensures r.outcome == rest.outcome && r.files == rest.files
    ensures |r.loaded| == |done| + |rest.loaded|
  {
    rest.(loaded := done + rest.loaded)
  }

  /** Prefixing read images twice is prefixing their concatenation. */
  lemma AfterAfter(a: seq<string>, b: seq<string>, rest: Run)
    ensures After(a, After(b, rest)) == After(a + b, rest)
  {
    assert a + (b + rest.loaded) == (a + b) + rest.loaded;
  }

  /** One turn of the outer loop: the first image is read, and its faces written when it is readable. */
  lemma DetectAllStep(files: map<string, Artifact>, images: seq<string>, scan: string -> Option<seq<Face>>)
    requires images != []
    ensures scan(images[0]).None? ==> DetectAll(files, images, scan) == Run(ReadFailed(images[0]), files, [images[0]])
    ensures scan(images[0]).Some? ==>
              DetectAll(files, images, scan)
              == After([images[0]], DetectAll(WriteFaces(files, images[0], scan(images[0]).value), images[1..], scan))
  {
  }

  /** The inner loop of `detect_faces`: crop, resize and write every face of `image`, in order. */
  method WriteAllFaces(image: string, faces: seq<Face>, out: OutputDir)
    modifies out
    ensures out.files == WriteFaces(old(out.files), image, faces)
  {
    var k := 0;
    while k < |faces|
      invariant 0 <= k <= |faces|
      invariant WriteFaces(out.files, image, faces[k..]) == WriteFaces(old(out.files), image, faces)
    {
      var face := faces[k];
      assert faces[k..][0] == face && faces[k..][1..] == faces[k + 1..];
      var resized := TargetSize(face.h, face.w, Some(OutputSide), Some(OutputSide));
      out.Write(OutputPath(image), Artifact(image, face, resized));
      k := k + 1;
    }
    assert faces[k..] == [];
  }

  /**
   * All faces of one image go to one path: afterwards that path holds the
   * crop of the last face, and nothing else has changed.
   */
  lemma {:induction false} LastFaceWins(files: map<string, Artifact>, image: string, faces: seq<Face>)
    requires faces != []
    ensures WriteFaces(files, image, faces) == files[OutputPath(image) := FaceArtifact(image, faces[|faces| - 1])]
    decreases |faces|
  {
    var next := files[OutputPath(image) := FaceArtifact(image, faces[0])];
    if |faces| > 1 {
      LastFaceWins(next, image, faces[1..]);
      assert faces[1..][|faces[1..]| - 1] == faces[|faces| - 1];
    }
  }

  /** A run over a single readable image writes that image's faces and finishes. */
  lemma DetectOneImage(files: map<string, Artifact>, image: string, faces: seq<Face>,
                       scan: string -> Option<seq<Face>>)
    requires scan(image) == Some(faces)
    ensures DetectAll(files, [image], scan) == Run(Finished, WriteFaces(files, image, faces), [image])
  {
    assert [image][1..] == [];
  }

  /** Two readable images are processed in listing order: the second one's writes land last. */
  lemma DetectTwoImages(files: map<string, Artifact>, x: string, y: string,
                        xFaces: seq<Face>, yFaces: seq<Face>, scan: string -> Option<seq<Face>>)
    requires scan(x) == Some(xFaces) && scan(y) == Some(yFaces)
    ensures DetectAll(files, [x, y], scan)
            == Run(Finished, WriteFaces(WriteFaces(files, x, xFaces), y, yFaces), [x, y])
  {
    assert [x, y][1..] == [y];
    DetectOneImage(WriteFaces(files, x, xFaces), y, yFaces, scan);
  }

  /** An image with no detected face writes nothing. */
  lemma NoFaceNoWrite(files: map<string, Artifact>, image: string)
    ensures WriteFaces(files, image, []) == files
  {
  }

  /**
   * A run only creates or overwrites output paths of images it read; every
   * other path keeps what it held.
   */
  lemma {:induction false} DetectAllTouchesOnlyOutputPaths(files: map<string, Artifact>, images: seq<string>,
                                                          scan: string -> Option<seq<Face>>, p: string)
    requires forall k :: 0 <= k < |images| ==> OutputPath(images[k]) != p
    ensures var r := DetectAll(files, images, scan);
            (p in r.files <==> p in files) && (p in files ==> r.files[p] == files[p])
    decreases |images|
  {
    if images != [] && scan(images[0]).Some? {
      var faces := scan(images[0]).value;
      var next := WriteFaces(files, images[0], faces);
      if faces != [] {
        LastFaceWins(files, images[0], faces);
      }
      assert forall k :: 0 <= k < |images[1..]| ==> images[1..][k] == images[k + 1];
      DetectAllTouchesOnlyOutputPaths(next, images[1..], scan, p);
    }
  }

  /**
   * For a name made of a dot-free stem and an image extension, the path is
   * the stem under "data/" with ".png": the ".jpg" and ".png" files of one
   * stem go to the same path.
   */
  lemma OutputPathOfStem(stem: string)
    requires '.' !in stem
    ensures OutputPath(stem + ".jpg") == "data/" + stem + ".png"
    ensures OutputPath(stem + ".png") == "data/" + stem + ".png"
  {
    RemoveAllTrailing(stem, ".jpg");
    RemoveAllAbsent(stem, ".png");
    RemoveAllKeepsOtherExtension(stem, ".png", ".jpg");
    RemoveAllTrailing(stem, ".png");
  }

  /** "abc.jpg" is stored as "data/abc.png". */
  lemma OutputPathOfAbcJpg()
    ensures OutputPath("abc.jpg") == "data/abc.png"
  {
    var stem := "abc";
    assert '.' !in stem;
    OutputPathOfStem(stem);
    assert stem + ".jpg" == "abc.jpg" && "data/" + stem + ".png" == "data/abc.png";
  }

  /** "a.jpg" and "a.png" share the path "data/a.png". */
  lemma OutputPathsCollide()
    ensures OutputPath("a.jpg") == OutputPath("a.png") == "data/a.png"
  {
    OutputPathOfStem("a");
    assert "a" + ".jpg" == "a.jpg" && "a" + ".png" == "a.png";
  }

  /**
   * Every ".jpg" is deleted, not only a trailing one: for dot-free `a` and
   * `b`, the name `a` + ".jpg" + `b` + ".png" is stored at "data/" + `a` + `b` + ".png".
   */
  lemma OutputPathDropsInnerJpeg(a: string, b: string)
    requires '.' !in a && '.' !in b
    ensures OutputPath(a + ".jpg" + b + ".png") == "data/" + a + b + ".png"
  {
    JpegPassDropsInner(a, b);
    assert '.' !in a + b;
    RemoveAllTrailing(a + b, ".png");
  }

  /** The first `replace` deletes the inner ".jpg" and keeps the trailing ".png". */
  lemma JpegPassDropsInner(a: string, b: string)
    requires '.' !in a && '.' !in b
    ensures RemoveAll(a + ".jpg" + b + ".png", ".jpg") == (a + b) + ".png"
  {
    assert a + ".jpg" + b + ".png" == a + (".jpg" + (b + ".png"));
    RemoveAllSkipsStem(a, ".jpg", ".jpg" + (b + ".png"));
    RemoveAllLeading(".jpg", b + ".png");
    RemoveAllKeepsOtherExtension(b, ".png", ".jpg");
    assert a + (b + ".png") == (a + b) + ".png";
  }
}
