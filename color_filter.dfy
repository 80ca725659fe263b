/**
 * Colour filter (`filter_images`): walks the caller's list with a Python
 * `for` loop and calls `list.remove` on that same list whenever an image has a
 * single band. Python's list iterator is a hidden index that advances after
 * each element, so the entry that slides into the slot of a removed one is
 * never inspected.
 */
module ColorFilter {
  import opened Sequences

  /**
   * What `Image.open(...).getbands()` gives for one file: its band names, or
   * the `OSError` raised while opening or decoding it.
   */
  datatype Probe = Bands(names: seq<string>) | OpenError

  /** The four branches of the loop body. */
  datatype Verdict =
    | Colour        // ('R','G','B') or ('R','G','B','A'): kept
    | NotColour     // exactly one band: removed
    | Unrecognised  // any other layout: logged, kept
    | InvalidFile   // OSError: logged, kept

  function Classify(p: Probe): (v: Verdict)
    ensures v == NotColour <==> p.Bands? && |p.names| == 1
    ensures v == InvalidFile <==> p.OpenError?
    ensures v == Colour <==> p.Bands? && (p.names == ["R", "G", "B"] || p.names == ["R", "G", "B", "A"])
  {
    match p
    case OpenError => InvalidFile
    case Bands(names) =>
      if names == ["R", "G", "B"] || names == ["R", "G", "B", "A"] then Colour
      else if |names| == 1 then NotColour
      else Unrecognised
  }

  /** The entries `filter_images` deletes. */
  predicate SingleBand(probe: string -> Probe, name: string): (b: bool)
    ensures b <==> probe(name).Bands? && |probe(name).names| == 1
  {
    Classify(probe(name)) == NotColour
  }

  /** A Python list of file names, shared by reference between caller and callee. */
  class NameList {
    var items: seq<string>

    constructor (items: seq<string>)
      ensures this.items == items
    {
      this.items := items;
    }

    /** `list.remove(x)`; `found` is false where Python raises `ValueError`. */
    method Remove(x: string) returns (found: bool)
      modifies this
      ensures found == (x in old(items))
      ensures items == if found then RemoveFirst(old(items), x) else old(items)
    {
      found := x in items;
      if found {
        items := RemoveFirst(items, x);
      }
    }
  }

  /**
   * The list left by the `for` loop once its hidden index stands at `idx` and
   * the list is `xs`: the iterator stops as soon as `idx` is not below the
   * current length; otherwise it reads `xs[idx]`, advances, and the body may
   * remove that name.
   */
  function Sweep(xs: seq<string>, idx: nat, probe: string -> Probe): (r: seq<string>)
    ensures |r| <= |xs|
    decreases |xs| + 1 - idx
  {
    if idx >= |xs| then xs
    else if SingleBand(probe, xs[idx]) then Sweep(RemoveFirst(xs, xs[idx]), idx + 1, probe)
    else Sweep(xs, idx + 1, probe)
  }

  /**
   * Reference reading of the same loop for a duplicate-free list, by
   * position in the original: a single-band entry that is looked at is
   * dropped, and the entry right after it is kept without being looked at.
   */
  function Survivors(s: seq<string>, probe: string -> Probe): (r: seq<string>)
    ensures |r| <= |s|
  {
    if s == [] then []
    else if !SingleBand(probe, s[0]) then [s[0]] + Survivors(s[1..], probe)
    else if |s| == 1 then []
    else [s[1]] + Survivors(s[2..], probe)
  }

  /** The reference reading only drops entries. */
  lemma {:induction false} SurvivorsSubset(s: seq<string>, probe: string -> Probe)
    ensures forall x :: x in Survivors(s, probe) ==> x in s
  {
    if s == [] {
    } else if !SingleBand(probe, s[0]) {
      SurvivorsSubset(s[1..], probe);
    } else if |s| > 1 {
      SurvivorsSubset(s[2..], probe);
      assert forall x :: x in s[2..] ==> x in s;
    }
  }

  /** `filter_images(directory, images)`: mutates `images` and returns that same list. */
  method FilterImages(images: NameList, probe: string -> Probe) returns (result: NameList)
    modifies images
    ensures result == images
    ensures images.items == Sweep(old(images.items), 0, probe)
    ensures IsSubsequence(images.items, old(images.items))
    ensures Distinct(old(images.items)) ==> images.items == Survivors(old(images.items), probe)
  {
    var idx := 0;
    while idx < |images.items|
      invariant idx <= |images.items| + 1
      invariant Sweep(images.items, idx, probe) == Sweep(old(images.items), 0, probe)
      decreases |images.items| + 1 - idx
    {
      var image := images.items[idx];
      idx := idx + 1;
      if Classify(probe(image)) == NotColour {
        var _ := images.Remove(image);
      }
    }
    result := images;
    SweepIsSubsequence(old(images.items), 0, probe);
    if Distinct(old(images.items)) {
      FilterMatchesSurvivors(old(images.items), probe);
    }
  }

  /** The filtered list keeps the original order: only deletions happen. */
  lemma {:induction false} SweepIsSubsequence(xs: seq<string>, idx: nat, probe: string -> Probe)
    ensures IsSubsequence(Sweep(xs, idx, probe), xs)
    decreases |xs| + 1 - idx
  {
    if idx >= |xs| {
      SubsequenceReflexive(xs);
    } else if SingleBand(probe, xs[idx]) {
      var j := FirstIndex(xs, xs[idx]);
      var ys := RemoveFirst(xs, xs[idx]);
      SweepIsSubsequence(ys, idx + 1, probe);
      RemoveAtIsSubsequence(xs, j);
      SubsequenceTransitive(Sweep(ys, idx + 1, probe), ys, xs);
    } else {
      SweepIsSubsequence(xs, idx + 1, probe);
    }
  }

  /**
   * Only single-band names are ever deleted: every other name (colour,
   * unrecognised layout, unreadable file) keeps all its occurrences.
   */
  lemma {:induction false} SweepKeepsOtherNames(xs: seq<string>, idx: nat, probe: string -> Probe, name: string)
    requires !SingleBand(probe, name)
    ensures multiset(Sweep(xs, idx, probe))[name] == multiset(xs)[name]
    decreases |xs| + 1 - idx
  {
    if idx >= |xs| {
    } else if SingleBand(probe, xs[idx]) {
      RemoveFirstMultiset(xs, xs[idx]);
      SweepKeepsOtherNames(RemoveFirst(xs, xs[idx]), idx + 1, probe, name);
    } else {
      SweepKeepsOtherNames(xs, idx + 1, probe, name);
    }
  }

  /**
   * On a duplicate-free list, the loop from index `i` onwards keeps the
   * first `i` entries and leaves `Survivors` of the rest.
   */
  lemma {:induction false} SweepFrom(xs: seq<string>, i: nat, probe: string -> Probe)
    requires Distinct(xs) && i <= |xs|
    ensures Sweep(xs, i, probe) == xs[..i] + Survivors(xs[i..], probe)
    decreases |xs| - i
  {
    if i == |xs| {
      assert xs[..i] == xs && xs[i..] == [];
    } else if !SingleBand(probe, xs[i]) {
      SweepFrom(xs, i + 1, probe);
      SweepKeptCase(xs, i, probe);
    } else {
      RemoveOfDistinct(xs, i);
      if i + 1 == |xs| {
        SweepLastCase(xs, i, probe);
      } else {
        SweepFrom(RemoveFirst(xs, xs[i]), i + 1, probe);
        SweepDroppedCase(xs, i, probe);
      }
    }
  }

  /** A kept entry joins the untouched prefix. */
  lemma SweepKeptCase(xs: seq<string>, i: nat, probe: string -> Probe)
    requires i < |xs| && !SingleBand(probe, xs[i])
    requires Sweep(xs, i + 1, probe) == xs[..i + 1] + Survivors(xs[i + 1..], probe)
    ensures Sweep(xs, i, probe) == xs[..i] + Survivors(xs[i..], probe)
  {
    assert xs[i..][1..] == xs[i + 1..];
    assert xs[..i + 1] == xs[..i] + [xs[i]];
  }

  /** In a duplicate-free list, `remove(xs[i])` deletes position `i` and leaves a duplicate-free list. */
  lemma RemoveOfDistinct(xs: seq<string>, i: nat)
    requires Distinct(xs) && i < |xs|
    ensures RemoveFirst(xs, xs[i]) == xs[..i] + xs[i + 1..]
    ensures Distinct(RemoveFirst(xs, xs[i]))
  {
    RemoveFirstOfDistinct(xs, i);
    RemoveAtIsSubsequence(xs, i);
    SubsequenceOfDistinct(RemoveFirst(xs, xs[i]), xs);
  }

  /** A removed last entry leaves the prefix. */
  lemma SweepLastCase(xs: seq<string>, i: nat, probe: string -> Probe)
    requires i + 1 == |xs| && SingleBand(probe, xs[i])
    requires RemoveFirst(xs, xs[i]) == xs[..i] + xs[i + 1..]
    ensures Sweep(xs, i, probe) == xs[..i] + Survivors(xs[i..], probe)
  {
    assert xs[..i] + xs[i + 1..] == xs[..i];
    assert Survivors(xs[i..], probe) == [];
  }

  /** A removed entry is replaced by the next one, which the loop then skips. */
  lemma SweepDroppedCase(xs: seq<string>, i: nat, probe: string -> Probe)
    requires i + 1 < |xs| && SingleBand(probe, xs[i])
    requires RemoveFirst(xs, xs[i]) == xs[..i] + xs[i + 1..]
    requires var ys := xs[..i] + xs[i + 1..];
             Sweep(ys, i + 1, probe) == ys[..i + 1] + Survivors(ys[i + 1..], probe)
    ensures Sweep(xs, i, probe) == xs[..i] + Survivors(xs[i..], probe)
  {
    SurvivorsAfterDrop(xs, i, probe);
  }

  /** After dropping position `i`, the entry that slid into it is kept. */
  lemma SurvivorsAfterDrop(xs: seq<string>, i: nat, probe: string -> Probe)
    requires i + 1 < |xs| && SingleBand(probe, xs[i])
    ensures var ys := xs[..i] + xs[i + 1..];
            ys[..i + 1] + Survivors(ys[i + 1..], probe) == xs[..i] + Survivors(xs[i..], probe)
  {
    var ys := xs[..i] + xs[i + 1..];
    assert ys[..i + 1] == xs[..i] + [xs[i + 1]];
    assert ys[i + 1..] == xs[i + 2..];
    assert xs[i..][2..] == xs[i + 2..];
    assert xs[i..][1] == xs[i + 1];
  }

  /** On a duplicate-free list (a directory listing), the loop leaves `Survivors`. */
  lemma {:induction false} FilterMatchesSurvivors(s: seq<string>, probe: string -> Probe)
    requires Distinct(s)
    ensures Sweep(s, 0, probe) == Survivors(s, probe)
  {
    SweepFrom(s, 0, probe);
    assert s[..0] == [] && s[0..] == s;
  }

  /**
   * Which entries of a duplicate-free list survive: those that are not
   * single-band, and those that directly follow an entry that was removed
   * (they are never looked at).
   */
  lemma {:induction false} SurvivesIff(s: seq<string>, i: nat, probe: string -> Probe)
    requires Distinct(s) && i < |s|
    ensures s[i] in Survivors(s, probe) <==>
              !SingleBand(probe, s[i]) || (i > 0 && s[i - 1] !in Survivors(s, probe))
  {
    var r := Survivors(s, probe);
    if !SingleBand(probe, s[0]) {
      var tail := Survivors(s[1..], probe);
      assert r == [s[0]] + tail;
      if i > 0 {
        SurvivesIff(s[1..], i - 1, probe);
        assert s[1..][i - 1] == s[i];
        assert s[i] != s[0];
        if i > 1 {
          assert s[1..][i - 2] == s[i - 1];
          assert s[i - 1] != s[0];
        }
      }
    } else if |s| > 1 {
      var tail := Survivors(s[2..], probe);
      assert r == [s[1]] + tail;
      if i <= 1 {
        SurvivorsSubset(s[2..], probe);
        assert s[0] !in s[2..];
      } else {
        assert Distinct(s[2..]);
        SurvivesIff(s[2..], i - 2, probe);
        assert s[2..][i - 2] == s[i];
        assert s[i] != s[1];
        if i == 2 {
          assert s[i - 1] in r;
        } else {
          assert s[2..][i - 3] == s[i - 1];
          assert s[i - 1] != s[1];
        }
      }
    }
  }

  /**
   * Of two adjacent single-band entries of a duplicate-free list, exactly
   * one survives the filter.
   */
  lemma AdjacentSingleBandExactlyOneSurvives(s: seq<string>, i: nat, probe: string -> Probe)
    requires Distinct(s) && i + 1 < |s|
    requires SingleBand(probe, s[i]) && SingleBand(probe, s[i + 1])
    ensures (s[i] in Sweep(s, 0, probe)) != (s[i + 1] in Sweep(s, 0, probe))
  {
    FilterMatchesSurvivors(s, probe);
    SurvivesIff(s, i + 1, probe);
  }

  /** Two entries that are not single-band both survive. */
  lemma TwoKept(x: string, y: string, probe: string -> Probe)
    requires !SingleBand(probe, x) && !SingleBand(probe, y)
    ensures Sweep([x, y], 0, probe) == [x, y]
  {
    assert Sweep([x, y], 1, probe) == Sweep([x, y], 2, probe) == [x, y];
  }

  /** A single-band entry right after a kept one is inspected and removed. */
  lemma ColourThenSingleBand(x: string, y: string, probe: string -> Probe)
    requires x != y && !SingleBand(probe, x) && SingleBand(probe, y)
    ensures Sweep([x, y], 0, probe) == [x]
  {
    assert RemoveFirst([x, y], y) == [x];
    assert Sweep([x], 2, probe) == [x];
  }

  /**
   * With a repeated name, `list.remove` deletes the earlier copy, so the
   * loop reorders the list instead of deleting by position: for
   * [y, a, b, a] where only b is a colour image, Python leaves [b, a],
   * not the [a, b] a positional deletion would leave.
   */
  lemma DuplicateNamesReorder(y: string, a: string, b: string, probe: string -> Probe)
    requires SingleBand(probe, y) && SingleBand(probe, a) && !SingleBand(probe, b)
    ensures Sweep([y, a, b, a], 0, probe) == [b, a]
    ensures Survivors([y, a, b, a], probe) == [a, b]
  {
    var zs := [b, a];
    var ys := [a] + zs;
    var xs := [y] + ys;
    assert Sweep(ys, 1, probe) == zs by {
      assert Sweep(ys, 2, probe) == zs by {
        RemoveLeading(a, zs);
      }
    }
    assert Sweep(xs, 0, probe) == Sweep(ys, 1, probe) by {
      RemoveLeading(y, ys);
    }
    assert Survivors(xs, probe) == [a, b] by {
      assert xs[2..] == zs && zs[1..] == [a];
      assert Survivors([a], probe) == [];
    }
    assert xs == [y, a, b, a];
  }

  /** `list.remove` of the first entry drops that entry. */
  lemma RemoveLeading(x: string, rest: seq<string>)
    ensures RemoveFirst([x] + rest, x) == rest
  {
    assert FirstIndex([x] + rest, x) == 0;
  }
}
