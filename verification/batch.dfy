/**
 * The batch driver: the selected range of designs is crossed with every
 * shirt template, design-major, and each pair yields one named mockup
 * entry carrying the configuration, placement and warp decision used.
 * Line numbers in this module refer to `mockup_generator.py`.
 */
module Batch {
  import opened Wrappers
  import opened PySlice
  import opened PyText
  import opened Placement
  import opened GarmentClass
  import opened Wrinkle

  /** An uploaded design: its file name and decoded size. */
  datatype DesignFile = DesignFile(name: string, size: Size)

  /**
   * An uploaded shirt template: its file name, decoded size and the box
   * `get_shirt_bbox` finds on it (the detector is deterministic, so one
   * value per shirt).
   */
  datatype ShirtFile = ShirtFile(name: string, size: Size, box: Option<Box>)

  /** One mockup written to the archive. */
  datatype Entry = Entry(
    name: string,
    design: DesignFile,
    shirt: ShirtFile,
    config: Config,
    placement: Placement,
    warped: bool)

  /** Line 191: the user's name for the design, or "graphic" when none was recorded. */
  function GraphicName(names: map<string, string>, fileName: string): (g: string)
    ensures fileName in names ==> g == names[fileName]
    ensures fileName !in names ==> g == "graphic"
  {
    if fileName in names then names[fileName] else "graphic"
  }

  /**
   * Line 232: `f"{graphic_name}_{color_name}_tee.png"`, `color_name` being
   * the shirt file's root. The name reads back as the graphic name, an
   * underscore, the shirt's root and the fixed suffix.
   */
  function OutputName(graphic: string, shirtFile: string): (n: string)
    ensures |n| == |graphic| + |Root(shirtFile)| + 9
    ensures n[..|graphic|] == graphic && n[|graphic|] == '_'
    ensures n[|graphic| + 1 .. |n| - 8] == Root(shirtFile)
    ensures n[|n| - 8 ..] == "_tee.png"
  {
    var n := graphic + "_" + Root(shirtFile) + "_tee.png";
    assert n[|graphic| + 1 .. |n| - 8] == Root(shirtFile);
    n
  }

  /** Line 71: `design_files[batch_start - 1 : batch_end]`. */
  function SelectBatch(designs: seq<DesignFile>, start: int, end: int): (sel: seq<DesignFile>)
    ensures 1 <= start <= end <= |designs| ==> sel == designs[start - 1 .. end]
    ensures 1 <= start <= end <= |designs| ==> |sel| == end - start + 1
  {
    if 1 <= start <= end <= |designs| then
      InRangeSlice(designs, start - 1, end);
      Slice(designs, start - 1, end)
    else
      Slice(designs, start - 1, end)
  }

  /** Lines 190-232 for one (design, shirt) pair. */
  function EntryFor(d: DesignFile, s: ShirtFile, names: map<string, string>, settings: Settings): (e: Entry)
    ensures e.design == d && e.shirt == s
    ensures e.config == Select(settings, s.name)
    ensures e.placement == Solve(s.box, s.size, d.size, e.config)
    ensures e.placement.transformed <==> s.box.Some?
    ensures e.warped <==> CropFits(s.size.height, s.size.width, e.placement.x, e.placement.y,
                                   e.placement.width, e.placement.height)
    ensures e.name == OutputName(GraphicName(names, d.name), s.name)
  {
    var cfg := Select(settings, s.name);
    var p := Solve(s.box, s.size, d.size, cfg);
    var g := GraphicName(names, d.name);
    var fits := CropFits(s.size.height, s.size.width, p.x, p.y, p.width, p.height);
    Entry(OutputName(g, s.name), d, s, cfg, p, fits)
  }

  /** `acc` holds the entries of the design-major cross product of `sel` and `shirts`, in order. */
  ghost predicate DesignMajor(acc: seq<Entry>, sel: seq<DesignFile>, shirts: seq<ShirtFile>,
                              names: map<string, string>, settings: Settings)
  {
    |shirts| > 0 &&
    forall k :: 0 <= k < |acc| ==>
      k / |shirts| < |sel| && acc[k] == EntryFor(sel[k / |shirts|], shirts[k % |shirts|], names, settings)
  }

  lemma DivModPair(i: nat, j: nat, m: nat)
    requires j < m
    ensures (i * m + j) / m == i && (i * m + j) % m == j
  {
    var n := i * m + j;
    var q := n / m;
    var r := n % m;
    assert q * m + r == n;
    if q > i {
      MulAtLeast(q - i, m);
    } else if q < i {
      MulAtLeast(i - q, m);
    }
  }

  lemma MulAtLeast(a: int, m: nat)
    requires a >= 1
    ensures a * m >= m
  {
  }

  /** How a press of the generate button ends. */
  datatype Run =
    | Warned                      // line 186: no shirt, or an empty selection
    | Failed                      // an exception escaped; no archive is offered
    | Archive(entries: seq<Entry>)

  /**
   * Line 213: the design is resized only when a box was found, and PIL
   * refuses a target size with a side below one pixel; the exception is
   * not caught, so it ends the whole run.
   */
  predicate ResizeFails(e: Entry)
  {
    e.placement.transformed && (e.placement.width < 1 || e.placement.height < 1)
  }

  /** Some (design, shirt) pair of the run hits `ResizeFails`. */
  ghost predicate AnyResizeFails(sel: seq<DesignFile>, shirts: seq<ShirtFile>,
                                 names: map<string, string>, settings: Settings)
  {
    exists i, j :: 0 <= i < |sel| && 0 <= j < |shirts| && ResizeFails(EntryFor(sel[i], shirts[j], names, settings))
  }

  /** Some shirt of design `i` hits `ResizeFails`. */
  ghost predicate RowFails(sel: seq<DesignFile>, shirts: seq<ShirtFile>,
                           names: map<string, string>, settings: Settings, i: int)
    requires 0 <= i < |sel|
  {
    exists j :: 0 <= j < |shirts| && ResizeFails(EntryFor(sel[i], shirts[j], names, settings))
  }

  lemma RowWitness(sel: seq<DesignFile>, shirts: seq<ShirtFile>, names: map<string, string>,
                   settings: Settings, i: int, j: int)
    requires 0 <= i < |sel| && 0 <= j < |shirts|
    requires ResizeFails(EntryFor(sel[i], shirts[j], names, settings))
    ensures RowFails(sel, shirts, names, settings, i)
    ensures AnyResizeFails(sel, shirts, names, settings)
  {
  }

  /** A design all of whose shirts passed has no failing shirt. */
  lemma RowPassed(sel: seq<DesignFile>, shirts: seq<ShirtFile>, names: map<string, string>,
                  settings: Settings, i: int)
    requires 0 <= i < |sel|
    requires PassedBefore(sel, shirts, names, settings, i + 1, 0)
    ensures !RowFails(sel, shirts, names, settings, i)
  {
  }

  /** No pair before `(i, j)` in design-then-shirt order hits `ResizeFails`. */
  ghost predicate PassedBefore(sel: seq<DesignFile>, shirts: seq<ShirtFile>,
                               names: map<string, string>, settings: Settings, i: int, j: int)
  {
    forall i', j' :: 0 <= i' < |sel| && 0 <= j' < |shirts| && (i' < i || (i' == i && j' < j)) ==>
      !ResizeFails(EntryFor(sel[i'], shirts[j'], names, settings))
  }

  /** Appending the entry of pair `(i, j)` keeps the accumulated entries design-major. */
  lemma ExtendDesignMajor(acc: seq<Entry>, sel: seq<DesignFile>, shirts: seq<ShirtFile>,
                          names: map<string, string>, settings: Settings, i: nat, j: nat)
    requires DesignMajor(acc, sel, shirts, names, settings)
    requires i < |sel| && j < |shirts| && |acc| / |shirts| == i && |acc| % |shirts| == j
    ensures DesignMajor(acc + [EntryFor(sel[i], shirts[j], names, settings)], sel, shirts, names, settings)
  {
    var m := |shirts|;
    var next := acc + [EntryFor(sel[i], shirts[j], names, settings)];
    forall k | 0 <= k < |next|
      ensures 0 <= k / m < |sel| && 0 <= k % m < m && next[k] == EntryFor(sel[k / m], shirts[k % m], names, settings)
    {
      ModRange(k, m);
      if k < |acc| {
        assert next[k] == acc[k];
      } else {
        assert k == |acc|;
        assert k / m == i && k % m == j;
      }
    }
  }

  lemma ModRange(k: nat, m: nat)
    requires 0 < m
    ensures 0 <= k / m && 0 <= k % m < m
  {
  }

  lemma FailWitness(sel: seq<DesignFile>, shirts: seq<ShirtFile>, names: map<string, string>,
                    settings: Settings, i: int, j: int)
    requires 0 <= i < |sel| && 0 <= j < |shirts|
    requires ResizeFails(EntryFor(sel[i], shirts[j], names, settings))
    ensures AnyResizeFails(sel, shirts, names, settings)
  {
  }

  lemma NextRowLength(i: int, m: int)
    ensures i * m + m == (i + 1) * m
  {
  }

  /** Passing pair `(i, j)` moves the frontier one step on. */
  lemma PassStep(sel: seq<DesignFile>, shirts: seq<ShirtFile>, names: map<string, string>,
                 settings: Settings, i: int, j: int)
    requires PassedBefore(sel, shirts, names, settings, i, j)
    requires 0 <= i < |sel| && 0 <= j < |shirts|
    requires !ResizeFails(EntryFor(sel[i], shirts[j], names, settings))
    ensures PassedBefore(sel, shirts, names, settings, i, j + 1)
  {
    forall i', j' | 0 <= i' < |sel| && 0 <= j' < |shirts| && (i' < i || (i' == i && j' < j + 1))
      ensures !ResizeFails(EntryFor(sel[i'], shirts[j'], names, settings))
    {
      if i' == i && j' == j {
      } else {
        assert i' < i || (i' == i && j' < j);
      }
    }
  }

  /** A design whose every shirt passed is as good as the start of the next design. */
  lemma NextDesign(sel: seq<DesignFile>, shirts: seq<ShirtFile>, names: map<string, string>,
                   settings: Settings, i: int)
    requires PassedBefore(sel, shirts, names, settings, i, |shirts|)
    ensures PassedBefore(sel, shirts, names, settings, i + 1, 0)
  {
  }

  /** Once every pair has passed, no pair of the run fails. */
  lemma AllPassed(sel: seq<DesignFile>, shirts: seq<ShirtFile>, names: map<string, string>,
                  settings: Settings)
    requires PassedBefore(sel, shirts, names, settings, |sel|, 0)
    ensures !AnyResizeFails(sel, shirts, names, settings)
  {
  }

  /** Lines 207-236 for one (design, shirt) pair: fail, or append its entry. */
  method PairStep(acc: seq<Entry>, sel: seq<DesignFile>, shirts: seq<ShirtFile>,
                  names: map<string, string>, settings: Settings, i: nat, j: nat)
    returns (next: seq<Entry>, failed: bool)
    requires i < |sel| && j < |shirts| && |acc| / |shirts| == i && |acc| % |shirts| == j
    requires DesignMajor(acc, sel, shirts, names, settings)
    requires PassedBefore(sel, shirts, names, settings, i, j)
    ensures failed <==> ResizeFails(EntryFor(sel[i], shirts[j], names, settings))
    ensures failed ==> AnyResizeFails(sel, shirts, names, settings)
    ensures !failed ==> next == acc + [EntryFor(sel[i], shirts[j], names, settings)]
    ensures !failed ==> DesignMajor(next, sel, shirts, names, settings)
    ensures !failed ==> PassedBefore(sel, shirts, names, settings, i, j + 1)
  {
    var e := EntryFor(sel[i], shirts[j], names, settings);
    if ResizeFails(e) {
      FailWitness(sel, shirts, names, settings, i, j);
      return acc, true;
    }
    ExtendDesignMajor(acc, sel, shirts, names, settings, i, j);
    PassStep(sel, shirts, names, settings, i, j);
    return acc + [e], false;
  }

  /**
   * Lines 195-236 for one design: the shirts in order, appending one entry
   * each, stopping at the first shirt whose resize fails.
   */
  method DesignRow(acc: seq<Entry>, sel: seq<DesignFile>, shirts: seq<ShirtFile>,
                   names: map<string, string>, settings: Settings, i: nat)
    returns (next: seq<Entry>, failed: bool)
    requires i < |sel| && 0 < |shirts| && |acc| == i * |shirts|
    requires DesignMajor(acc, sel, shirts, names, settings)
    requires PassedBefore(sel, shirts, names, settings, i, 0)
    ensures failed <==> RowFails(sel, shirts, names, settings, i)
    ensures failed ==> AnyResizeFails(sel, shirts, names, settings)
    ensures !failed ==> |next| == (i + 1) * |shirts|
    ensures !failed ==> DesignMajor(next, sel, shirts, names, settings)
    ensures !failed ==> PassedBefore(sel, shirts, names, settings, i + 1, 0)
  {
    var m := |shirts|;
    next := acc;
    var j := 0;
    while j < m
      invariant 0 <= j <= m
      invariant |next| == |acc| + j
      invariant DesignMajor(next, sel, shirts, names, settings)
      invariant PassedBefore(sel, shirts, names, settings, i, j)
    {
      DivModPair(i, j, m);
      next, failed := PairStep(next, sel, shirts, names, settings, i, j);
      if failed {
        RowWitness(sel, shirts, names, settings, i, j);
        return;
      }
      j := j + 1;
    }
    NextRowLength(i, m);
    NextDesign(sel, shirts, names, settings, i);
    RowPassed(sel, shirts, names, settings, i);
    return next, false;
  }

  /**
   * Lines 184-236. With no design uploaded, `selected_batch` (line 71) is
   * never assigned, so the test at line 185 raises `NameError` and the run
   * fails. Otherwise the warning when the selected batch or the shirt list
   * is empty (the number inputs at lines 69-70 keep the selection non-empty
   * in the application, so there it answers a missing shirt list); and
   * otherwise the design-then-shirt loop, which either stops at the first
   * pair whose resize fails or yields one entry per pair, in order.
   */
  method Generate(designs: seq<DesignFile>, shirts: seq<ShirtFile>, names: map<string, string>,
                  settings: Settings, start: int, end: int)
    returns (run: Run)
    ensures run.Warned? <==> |designs| > 0 && (|SelectBatch(designs, start, end)| == 0 || |shirts| == 0)
    ensures run.Failed? <==> |designs| == 0 ||
                             (|SelectBatch(designs, start, end)| > 0 && |shirts| > 0 &&
                              AnyResizeFails(SelectBatch(designs, start, end), shirts, names, settings))
    ensures run.Archive? ==> |run.entries| == |SelectBatch(designs, start, end)| * |shirts|
    ensures run.Archive? ==> DesignMajor(run.entries, SelectBatch(designs, start, end), shirts, names, settings)
    ensures 1 <= start <= end <= |designs| && |shirts| > 0 &&
            !AnyResizeFails(SelectBatch(designs, start, end), shirts, names, settings) ==>
      run.Archive? && |run.entries| == (end - start + 1) * |shirts|
  {
    if |designs| == 0 {
      return Failed;
    }
    var sel := SelectBatch(designs, start, end);
    if |sel| == 0 || |shirts| == 0 {
      return Warned;
    }
    var acc: seq<Entry> := [];
    var i := 0;
    while i < |sel|
      invariant 0 <= i <= |sel|
      invariant |acc| == i * |shirts|
      invariant DesignMajor(acc, sel, shirts, names, settings)
      invariant PassedBefore(sel, shirts, names, settings, i, 0)
    {
      var failed;
      acc, failed := DesignRow(acc, sel, shirts, names, settings, i);
      if failed {
        return Failed;
      }
      i := i + 1;
    }
    AllPassed(sel, shirts, names, settings);
    return Archive(acc);
  }

  /**
   * Line 232 with line 196: a shirt file `stem.ext` gives the entry name
   * `graphic_stem_tee.png`, the graphic name being the user's name for the
   * design or "graphic".
   */
  lemma EntryName(d: DesignFile, s: ShirtFile, names: map<string, string>, settings: Settings,
                  stem: string, ext: string)
    requires |stem| > 0 && stem[0] != '.'
    requires forall k :: 0 <= k < |stem| ==> stem[k] != '/'
    requires forall k :: 0 <= k < |ext| ==> ext[k] != '.' && ext[k] != '/'
    requires s.name == stem + "." + ext
    ensures EntryFor(d, s, names, settings).name == GraphicName(names, d.name) + "_" + stem + "_tee.png"
  {
    RootDropsExtension(s.name, stem, ext);
  }
}
