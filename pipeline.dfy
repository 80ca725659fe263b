/**
 * The script at the bottom of main.py: scan the directory, filter the
 * colour images, then detect and write faces. The directory listing, the
 * band probe, the cascade-file check and the detector are inputs.
 */
module Pipeline {
  import opened Wrappers
  import opened Sequences
  import opened Scanner
  import opened ColorFilter
  import opened Resize
  import opened Detector

  /** The whole run as a function of the initial output directory. */
  function ScriptRun(files: map<string, Artifact>, listing: seq<string>, probe: string -> Probe,
                     cascadeExists: bool, scan: string -> Option<seq<Face>>): (r: Run)
    ensures !cascadeExists ==> r == Run(CascadeNotFound, files, [])
  {
    Detect(files, Sweep(SelectImages(listing), 0, probe), cascadeExists, scan)
  }

  /**
   * The images read by the detector appear in the directory listing, in
   * listing order, each at most as often as listed.
   */
  lemma ScriptReadsListingInOrder(files: map<string, Artifact>, listing: seq<string>, probe: string -> Probe,
                                  cascadeExists: bool, scan: string -> Option<seq<Face>>)
    ensures IsSubsequence(ScriptRun(files, listing, probe, cascadeExists, scan).loaded, listing)
  {
    var selected := SelectImages(listing);
    var colored := Sweep(selected, 0, probe);
    var r := Detect(files, colored, cascadeExists, scan);
    if cascadeExists {
      DetectAllReadsPrefix(files, colored, scan);
    }
    assert r.loaded == colored[..|r.loaded|];
    SelectImagesIsSubsequence(listing);
    SweepIsSubsequence(selected, 0, probe);
    PrefixIsSubsequence(colored, |r.loaded|);
    SubsequenceTransitive(r.loaded, colored, selected);
    SubsequenceTransitive(r.loaded, selected, listing);
  }

  /** `get_images`, `filter_images` and `detect_faces` run one after the other. */
  method RunScript(listing: seq<string>, probe: string -> Probe, cascadeExists: bool,
                   scan: string -> Option<seq<Face>>, out: OutputDir)
    returns (outcome: Outcome, loaded: seq<string>)
    modifies out
    ensures Run(outcome, out.files, loaded) == ScriptRun(old(out.files), listing, probe, cascadeExists, scan)
  {
    var images := GetImages(listing);
    var list := new NameList(images);
    var colored := FilterImages(list, probe);
    outcome, loaded := DetectFaces(colored.items, cascadeExists, scan, out);
  }

  /**
   * A listing holding one colour image that can be read: the run finishes
   * after writing that image's faces.
   */
  lemma ScriptRunOneColourImage(files: map<string, Artifact>, name: string, probe: string -> Probe,
                                scan: string -> Option<seq<Face>>, faces: seq<Face>)
    requires IsImageName(name) && !SingleBand(probe, name) && scan(name) == Some(faces)
    ensures ScriptRun(files, [name], probe, true, scan) == Run(Finished, WriteFaces(files, name, faces), [name])
  {
    assert SelectImages([name]) == [name] by {
      assert [name][1..] == [];
    }
    assert Sweep([name], 0, probe) == [name];
    DetectOneImage(files, name, faces, scan);
  }

  /** `a` + ".jpg" and `b` + ".png" are different names whatever the stems. */
  lemma ExtensionsDiffer(a: string, b: string)
    ensures a + ".jpg" != b + ".png"
  {
    var x, y := a + ".jpg", b + ".png";
    if |x| == |y| {
      assert x[|x| - 3] == 'j' && y[|y| - 3] == 'p';
    }
  }

  /** A listing of `a`.jpg and `b`.png is selected whole. */
  lemma ListedStemsSelected(a: string, b: string)
    ensures SelectImages([a + ".jpg", b + ".png"]) == [a + ".jpg", b + ".png"]
  {
    var x, y := a + ".jpg", b + ".png";
    assert IsImageName(x) && IsImageName(y);
    SelectEveryImage([x, y]);
  }

  /**
   * A colour `a`.jpg with one 80 x 80 face and a greyscale `b`.png: the
   * output directory receives exactly "data/`a`.png", a 64 x 64 crop, and
   * `b`.png is never read by the detector. The listing order is not
   * specified by `os.listdir`, so both orders are covered; with `b`.png
   * first, `a`.jpg slides into the removed slot and is kept unclassified.
   */
  lemma ScenarioOneColourOneGrey(a: string, b: string, probe: string -> Probe, scan: string -> Option<seq<Face>>)
    requires '.' !in a
    requires probe(a + ".jpg") == Bands(["R", "G", "B"]) && probe(b + ".png") == Bands(["L"])
    requires scan(a + ".jpg") == Some([Rect(0, 0, 80, 80)])
    ensures ScriptRun(map[], [a + ".jpg", b + ".png"], probe, true, scan) == OneSquareCrop(a)
    ensures ScriptRun(map[], [b + ".png", a + ".jpg"], probe, true, scan) == OneSquareCrop(a)
  {
    var x, y := a + ".jpg", b + ".png";
    ExtensionsDiffer(a, b);
    ListedStemsSelected(a, b);
    ColourThenSingleBand(x, y, probe);
    assert SelectImages([y, x]) == [y, x] by {
      assert IsImageName(x) && IsImageName(y);
      SelectEveryImage([y, x]);
    }
    assert Sweep([y, x], 0, probe) == [x] by {
      RemoveLeading(y, [x]);
    }
    ColourImageCropped(a, scan);
  }

  /** The run that writes only "data/`a`.png", the 64 x 64 crop of an 80 x 80 face of `a`.jpg. */
  function OneSquareCrop(a: string): (r: Run)
    ensures r.outcome == Finished && r.loaded == [a + ".jpg"]
    ensures r.files.Keys == {"data/" + a + ".png"}
    ensures r.files["data/" + a + ".png"].size == Scaled(OutputSide, OutputSide)
  {
    Run(Finished, map["data/" + a + ".png" := Artifact(a + ".jpg", Rect(0, 0, 80, 80), Scaled(64, 64))], [a + ".jpg"])
  }

  /** The detector alone on `a`.jpg with one 80 x 80 face gives `OneSquareCrop(a)`. */
  lemma ColourImageCropped(a: string, scan: string -> Option<seq<Face>>)
    requires '.' !in a
    requires scan(a + ".jpg") == Some([Rect(0, 0, 80, 80)])
    ensures Detect(map[], [a + ".jpg"], true, scan) == OneSquareCrop(a)
  {
    var x := a + ".jpg";
    var face: Face := Rect(0, 0, 80, 80);
    var crop := Artifact(x, Rect(0, 0, 80, 80), Scaled(64, 64));
    assert FaceArtifact(x, face) == crop;
    assert WriteFaces(map[], x, [face]) == map["data/" + a + ".png" := crop] by {
      OutputPathOfStem(a);
      LastFaceWins(map[], x, [face]);
    }
    DetectOneImage(map[], x, [face], scan);
  }

  /**
   * However many faces the detector finds in `c`.jpg, the run leaves one
   * file, "data/`c`.png", holding the crop of the last face.
   */
  lemma ScenarioManyFacesOneFile(c: string, probe: string -> Probe, scan: string -> Option<seq<Face>>, faces: seq<Face>)
    requires '.' !in c && faces != []
    requires !SingleBand(probe, c + ".jpg") && scan(c + ".jpg") == Some(faces)
    ensures ScriptRun(map[], [c + ".jpg"], probe, true, scan)
            == Run(Finished, map["data/" + c + ".png" := FaceArtifact(c + ".jpg", faces[|faces| - 1])], [c + ".jpg"])
  {
    var x := c + ".jpg";
    assert SelectImages([x]) == [x] by {
      assert IsImageName(x);
      SelectEveryImage([x]);
    }
    assert Sweep([x], 0, probe) == [x];
    OutputPathOfStem(c);
    LastFaceWins(map[], x, faces);
    DetectOneImage(map[], x, faces, scan);
  }

  /**
   * `c`.jpg and `c`.png, both colour images with faces, share one output
   * file; the one listed last wins.
   */
  lemma ScenarioSameStemCollide(c: string, probe: string -> Probe, scan: string -> Option<seq<Face>>,
                                jpgFaces: seq<Face>, pngFaces: seq<Face>)
    requires '.' !in c && jpgFaces != [] && pngFaces != []
    requires !SingleBand(probe, c + ".jpg") && !SingleBand(probe, c + ".png")
    requires scan(c + ".jpg") == Some(jpgFaces) && scan(c + ".png") == Some(pngFaces)
    ensures ScriptRun(map[], [c + ".jpg", c + ".png"], probe, true, scan).files
            == map["data/" + c + ".png" := FaceArtifact(c + ".png", pngFaces[|pngFaces| - 1])]
  {
    var x, y := c + ".jpg", c + ".png";
    var p := "data/" + c + ".png";
    BothStemsProcessed(c, probe, scan, jpgFaces, pngFaces);
    OutputPathOfStem(c);
    var first := WriteFaces(map[], x, jpgFaces);
    assert first == map[p := FaceArtifact(x, jpgFaces[|jpgFaces| - 1])] by {
      LastFaceWins(map[], x, jpgFaces);
    }
    LastFaceWins(first, y, pngFaces);
  }

  /** `c`.jpg and `c`.png, both colour and readable, are processed in listing order. */
  lemma BothStemsProcessed(c: string, probe: string -> Probe, scan: string -> Option<seq<Face>>,
                           jpgFaces: seq<Face>, pngFaces: seq<Face>)
    requires !SingleBand(probe, c + ".jpg") && !SingleBand(probe, c + ".png")
    requires scan(c + ".jpg") == Some(jpgFaces) && scan(c + ".png") == Some(pngFaces)
    ensures ScriptRun(map[], [c + ".jpg", c + ".png"], probe, true, scan)
            == Run(Finished, WriteFaces(WriteFaces(map[], c + ".jpg", jpgFaces), c + ".png", pngFaces),
                   [c + ".jpg", c + ".png"])
  {
    ListedStemsSelected(c, c);
    TwoKept(c + ".jpg", c + ".png", probe);
    DetectTwoImages(map[], c + ".jpg", c + ".png", jpgFaces, pngFaces, scan);
  }
}
