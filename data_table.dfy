/**
 * The newer `DataTable` component: one section per uploaded file, one block
 * per array, a CSV download button under every 2D array, and a floating
 * button that scrolls to the download buttons one after another.
 *
 * The buttons are collected in an array indexed by a download slot, and a
 * cursor walks that array modulo its length. The component computes the slot
 * as `fileIndex + arrayIndex`; `RegistrationsAsWritten` models that, and
 * `HoleFreezesNavigation` and `SlotsCollide` show what goes wrong with it.
 * The navigator the model mounts uses `Registrations`, which numbers the
 * download buttons consecutively.
 */
module DataTable {
  import opened Wrappers
  import opened OrderedDict
  import opened Arrays
  import opened Grid
  import opened NestedView
  import opened Text
  import opened Csv

  /** The upload response: per file name, the summaries of its arrays. */
  type Files = Dict<string, Dict<string, Summary>>

  //
  // Sections
  //

  /** The name the CSV export of a 2D array carries: `fileName-arrayName`. */
  function CsvName(fileName: string, arrayName: string): (name: string)
    ensures name == fileName + "-" + arrayName
    ensures |name| == |fileName| + 1 + |arrayName| && name[|fileName|] == '-'
  {
    fileName + "-" + arrayName
  }

  /** A 2D array gets a table and a download button; anything else the named nested view. */
  datatype Block = WithDownload(csvName: string, table: Nested) | Deeper(view: View)

  datatype ArrayBlock = ArrayBlock(name: string, ndim: nat, block: Block)

  datatype FileSection = FileSection(fileName: string, arrays: seq<ArrayBlock>)

  function ShowArray(fileName: string, arrayName: string, s: Summary): ArrayBlock
  {
    ArrayBlock(arrayName, s.ndim,
      if s.ndim == 2 then WithDownload(CsvName(fileName, arrayName), s.data) else Deeper(Render(s.data, 0, true)))
  }

  /** `Object.entries(data).map(...)` over the files, then over each file's arrays. */
  function Sections(files: Files): (sections: seq<FileSection>)
    ensures |sections| == |files|
  {
    seq(|files|, f requires 0 <= f < |files| =>
      FileSection(files[f].0,
        seq(|files[f].1|, a requires 0 <= a < |files[f].1| => ShowArray(files[f].0, files[f].1[a].0, files[f].1[a].1))))
  }

  /**
   * Section `f` is file `f`, block `a` is its array `a`; only a 2D array gets
   * a download button, named `fileName-arrayName`, and every other array goes
   * to the nested view at depth 0.
   */
  lemma SectionsDispatch(files: Files, f: nat, a: nat)
    requires f < |files| && a < |files[f].1|
    ensures Sections(files)[f].fileName == files[f].0
    ensures |Sections(files)[f].arrays| == |files[f].1|
    ensures Sections(files)[f].arrays[a].name == files[f].1[a].0
    ensures Sections(files)[f].arrays[a].block.WithDownload? <==> files[f].1[a].1.ndim == 2
    ensures files[f].1[a].1.ndim == 2 ==>
      Sections(files)[f].arrays[a].block == WithDownload(files[f].0 + "-" + files[f].1[a].0, files[f].1[a].1.data)
    ensures files[f].1[a].1.ndim != 2 ==>
      Sections(files)[f].arrays[a].block == Deeper(Render(files[f].1[a].1.data, 0, true))
  {
  }

  /** The button of a 2D array saves `fileName-arrayName.csv`. */
  lemma DownloadFileName(fileName: string, arrayName: string)
    ensures DownloadName(CsvName(fileName, arrayName)) == fileName + "-" + arrayName + ".csv"
    ensures EndsWith(DownloadName(CsvName(fileName, arrayName)), ".csv")
  {
  }

  //
  // Download slots
  //

  /** A ref callback storing the button `button` at `downloadRefs.current[slot]`. */
  datatype Registration = Registration(slot: nat, button: string)

  /** `a[index] = v` on a JavaScript array: past the end, the array grows and the gap is left as holes. */
  function Assign(slots: seq<Option<string>>, index: nat, v: string): (r: seq<Option<string>>)
    ensures |r| == if index < |slots| then |slots| else index + 1
    ensures r[index] == Some(v)
    ensures forall i :: 0 <= i < |r| && i != index ==> r[i] == if i < |slots| then slots[i] else None
  {
    if index < |slots| then slots[index := Some(v)]
    else slots + seq(index - |slots|, _ => None) + [Some(v)]
  }

  /** The button array after the ref callbacks run in order. */
  function ButtonTable(start: seq<Option<string>>, regs: seq<Registration>): (r: seq<Option<string>>)
    ensures |r| >= |start|
  {
    if |regs| == 0 then start
    else
      var last := regs[|regs| - 1];
      Assign(ButtonTable(start, regs[..|regs| - 1]), last.slot, last.button)
  }

  /** The CSV names of a file's 2D arrays, in order. */
  function FileDownloads(fileName: string, arrays: Dict<string, Summary>): seq<string>
  {
    if |arrays| == 0 then []
    else
      var last := arrays[|arrays| - 1];
      FileDownloads(fileName, arrays[..|arrays| - 1]) + (if last.1.ndim == 2 then [CsvName(fileName, last.0)] else [])
  }

  /** Every download button of the page, in render order. */
  function Downloads(files: Files): seq<string>
  {
    if |files| == 0 then []
    else
      var last := files[|files| - 1];
      Downloads(files[..|files| - 1]) + FileDownloads(last.0, last.1)
  }

  /** The registrations as the component writes them: slot `fileIndex + arrayIndex`. */
  function FileRegistrationsAsWritten(fileIndex: nat, fileName: string, arrays: Dict<string, Summary>): seq<Registration>
  {
    if |arrays| == 0 then []
    else
      var arrayIndex := |arrays| - 1;
      var last := arrays[arrayIndex];
      FileRegistrationsAsWritten(fileIndex, fileName, arrays[..arrayIndex])
        + (if last.1.ndim == 2 then [Registration(fileIndex + arrayIndex, CsvName(fileName, last.0))] else [])
  }

  function RegistrationsAsWritten(files: Files): seq<Registration>
  {
    if |files| == 0 then []
    else
      var fileIndex := |files| - 1;
      RegistrationsAsWritten(files[..fileIndex]) + FileRegistrationsAsWritten(fileIndex, files[fileIndex].0, files[fileIndex].1)
  }

  function Buttons(regs: seq<Registration>): (bs: seq<string>)
    ensures |bs| == |regs|
  {
    seq(|regs|, i requires 0 <= i < |regs| => regs[i].button)
  }

  lemma ButtonsAppend(a: seq<Registration>, b: seq<Registration>)
    ensures Buttons(a + b) == Buttons(a) + Buttons(b)
  {
  }

  lemma {:induction false} FileButtonsAsWritten(fileIndex: nat, fileName: string, arrays: Dict<string, Summary>)
    ensures Buttons(FileRegistrationsAsWritten(fileIndex, fileName, arrays)) == FileDownloads(fileName, arrays)
  {
    if |arrays| > 0 {
      var arrayIndex := |arrays| - 1;
      var last := arrays[arrayIndex];
      FileButtonsAsWritten(fileIndex, fileName, arrays[..arrayIndex]);
      ButtonsAppend(FileRegistrationsAsWritten(fileIndex, fileName, arrays[..arrayIndex]),
        if last.1.ndim == 2 then [Registration(fileIndex + arrayIndex, CsvName(fileName, last.0))] else []);
    }
  }

  /** The component registers the right buttons in the right order; only the slots are off. */
  lemma {:induction false} ButtonsAsWritten(files: Files)
    ensures Buttons(RegistrationsAsWritten(files)) == Downloads(files)
  {
    if |files| > 0 {
      var fileIndex := |files| - 1;
      ButtonsAsWritten(files[..fileIndex]);
      FileButtonsAsWritten(fileIndex, files[fileIndex].0, files[fileIndex].1);
      ButtonsAppend(RegistrationsAsWritten(files[..fileIndex]),
        FileRegistrationsAsWritten(fileIndex, files[fileIndex].0, files[fileIndex].1));
    }
  }

  /** The corrected registrations: the `k`-th download button of the page takes slot `k`. */
  function Registrations(files: Files): (regs: seq<Registration>)
    ensures Buttons(regs) == Downloads(files)
    ensures forall k :: 0 <= k < |regs| ==> regs[k].slot == k
  {
    var names := Downloads(files);
    seq(|names|, k requires 0 <= k < |names| => Registration(k, names[k]))
  }

  lemma {:induction false} NumberedTable(names: seq<string>)
    ensures ButtonTable([], seq(|names|, k requires 0 <= k < |names| => Registration(k, names[k])))
      == seq(|names|, k requires 0 <= k < |names| => Some(names[k]))
  {
    if |names| > 0 {
      var n := |names| - 1;
      var regs := seq(|names|, k requires 0 <= k < |names| => Registration(k, names[k]));
      assert regs[..n] == seq(n, k requires 0 <= k < n => Registration(k, names[..n][k]));
      NumberedTable(names[..n]);
    }
  }

  /** With consecutive slots the button array has no holes: slot `k` holds the `k`-th download button. */
  lemma RegistrationsFillTable(files: Files)
    ensures ButtonTable([], Registrations(files)) == seq(|Downloads(files)|, k requires 0 <= k < |Downloads(files)| => Some(Downloads(files)[k]))
  {
    NumberedTable(Downloads(files));
  }

  //
  // The navigator
  //

  /** No slot is a hole. */
  predicate Dense(slots: seq<Option<string>>)
  {
    forall i :: 0 <= i < |slots| ==> slots[i].Some?
  }

  /**
   * One click of the floating button: without the smooth scroller or without
   * buttons nothing happens; otherwise the button at the cursor, if there is
   * one, is scrolled to and the cursor moves on modulo the number of slots.
   */
  function Step(hasScroller: bool, slots: seq<Option<string>>, cursor: nat): (r: (Option<string>, nat))
    ensures cursor < |slots| ==> r.1 < |slots|
    ensures r.0.Some? ==> cursor < |slots| && r.0 == slots[cursor]
    ensures r.0.None? ==> r.1 == cursor
  {
    if hasScroller && |slots| > 0 && cursor < |slots| && slots[cursor].Some? then
      (slots[cursor], (cursor + 1) % |slots|)
    else (None, cursor)
  }

  /**
   * The three cases of a click: nothing happens without the scroller or
   * without buttons; a button under the cursor is scrolled to and the cursor
   * advances modulo the slot count; a hole (or a cursor past the end) is
   * passed over without moving the cursor.
   */
  lemma StepCases(hasScroller: bool, slots: seq<Option<string>>, cursor: nat)
    ensures !hasScroller || |slots| == 0 ==> Step(hasScroller, slots, cursor) == (None, cursor)
    ensures hasScroller && cursor < |slots| && slots[cursor].Some? ==>
      Step(hasScroller, slots, cursor) == (slots[cursor], (cursor + 1) % |slots|) && (cursor + 1) % |slots| < |slots|
    ensures cursor < |slots| && slots[cursor].None? ==> Step(hasScroller, slots, cursor) == (None, cursor)
  {
  }

  /** The cursor after `n` clicks. */
  function CursorAfter(slots: seq<Option<string>>, cursor: nat, n: nat): nat
  {
    if n == 0 then cursor else Step(true, slots, CursorAfter(slots, cursor, n - 1)).1
  }

  lemma ModSucc(x: nat, m: nat)
    requires m > 0
    ensures (x % m + 1) % m == (x + 1) % m
  {
    var q, r := x / m, x % m;
    assert x == q * m + r;
    if r + 1 < m {
      RowMajorDivMod(0, r + 1, m);
      RowMajorDivMod(q, r + 1, m);
      assert x + 1 == q * m + (r + 1);
      assert 0 * m + (r + 1) == r + 1;
    } else {
      assert r + 1 == m;
      RowMajorDivMod(1, 0, m);
      RowMajorDivMod(q + 1, 0, m);
      assert (q + 1) * m == q * m + m;
      assert x + 1 == (q + 1) * m + 0;
      assert 1 * m + 0 == m;
    }
  }

  /** Without holes, a click scrolls to the button under the cursor and moves to the next slot. */
  lemma DenseStep(slots: seq<Option<string>>, c: nat)
    requires Dense(slots) && c < |slots|
    ensures Step(true, slots, c) == (slots[c], (c + 1) % |slots|)
  {
    assert slots[c].Some?;
  }

  lemma SmallMod(k: nat, m: nat)
    requires k < m
    ensures (0 + k) % m == k
  {
  }

  /** Without holes, every click moves one slot on: after `n` clicks the cursor is at `cursor + n` modulo the slot count. */
  lemma {:induction false} DenseCycles(slots: seq<Option<string>>, cursor: nat, n: nat)
    requires Dense(slots) && cursor < |slots|
    ensures CursorAfter(slots, cursor, n) == (cursor + n) % |slots|
  {
    if n == 0 {
      SmallMod(cursor, |slots|);
    } else {
      var x := cursor + n - 1;
      DenseCycles(slots, cursor, n - 1);
      var c := CursorAfter(slots, cursor, n - 1);
      assert c == x % |slots|;
      DenseStep(slots, c);
      assert CursorAfter(slots, cursor, n) == (c + 1) % |slots|;
      ModSucc(x, |slots|);
    }
  }

  /** Without holes, clicks `1 .. |slots|` from the start scroll to every button once, in slot order. */
  lemma {:induction false} DenseVisitsAll(slots: seq<Option<string>>, k: nat)
    requires Dense(slots) && k < |slots|
    ensures Step(true, slots, CursorAfter(slots, 0, k)).0 == slots[k]
  {
    var c := CursorAfter(slots, 0, k);
    DenseCycles(slots, 0, k);
    SmallMod(k, |slots|);
    assert c == k;
    DenseStep(slots, k);
  }

  /** A hole under the cursor stops the navigation for good: every later click scrolls nowhere and leaves the cursor in place. */
  lemma {:induction false} HoleFreezes(slots: seq<Option<string>>, cursor: nat, n: nat)
    requires cursor < |slots| && slots[cursor].None?
    ensures CursorAfter(slots, cursor, n) == cursor
    ensures Step(true, slots, CursorAfter(slots, cursor, n)).0 == None
  {
    if n > 0 {
      HoleFreezes(slots, cursor, n - 1);
    }
  }

  /** The floating button's state: the smooth scroller, the button array and the cursor. */
  class DownloadNavigator {
    var hasScroller: bool
    var slots: seq<Option<string>>
    var cursor: nat

    /** The cursor starts at 0 and, once it has moved, always points into the button array. */
    ghost predicate Valid()
      reads this
    {
      cursor == 0 || cursor < |slots|
    }

    /** A fresh component: no buttons yet, cursor 0. */
    constructor (hasScroller: bool)
      ensures Valid()
      ensures this.hasScroller == hasScroller && slots == [] && cursor == 0
    {
      this.hasScroller := hasScroller;
      slots := [];
      cursor := 0;
    }

    /** One ref callback. */
    method Register(r: Registration)
      requires Valid()
      modifies this
      ensures Valid()
      ensures slots == Assign(old(slots), r.slot, r.button)
      ensures cursor == old(cursor) && hasScroller == old(hasScroller)
    {
      slots := Assign(slots, r.slot, r.button);
    }

    /** The ref callbacks of one render, in order. */
    method RegisterAll(regs: seq<Registration>)
      requires Valid()
      modifies this
      ensures Valid()
      ensures slots == ButtonTable(old(slots), regs)
      ensures cursor == old(cursor) && hasScroller == old(hasScroller)
    {
      var i := 0;
      while i < |regs|
        invariant 0 <= i <= |regs|
        invariant Valid()
        invariant slots == ButtonTable(old(slots), regs[..i])
        invariant cursor == old(cursor) && hasScroller == old(hasScroller)
      {
        assert regs[..i + 1][..i] == regs[..i];
        Register(regs[i]);
        i := i + 1;
      }
      assert regs[..i] == regs;
    }

    /** `scrollToNextDownload`: returns the button scrolled to, if any. */
    method ScrollToNext() returns (target: Option<string>)
      requires Valid()
      modifies this
      ensures Valid()
      ensures slots == old(slots) && hasScroller == old(hasScroller)
      ensures (target, cursor) == Step(hasScroller, slots, old(cursor))
    {
      if hasScroller && |slots| > 0 {
        if cursor < |slots| && slots[cursor].Some? {
          target := slots[cursor];
          cursor := (cursor + 1) % |slots|;
        } else {
          target := None;
        }
      } else {
        target := None;
      }
    }
  }

  /** The page after its first render, with the corrected slots: every download button reachable. */
  method Mount(files: Files, hasScroller: bool) returns (nav: DownloadNavigator)
    ensures fresh(nav) && nav.Valid()
    ensures nav.hasScroller == hasScroller && nav.cursor == 0
    ensures Dense(nav.slots) && |nav.slots| == |Downloads(files)|
    ensures forall k :: 0 <= k < |nav.slots| ==> nav.slots[k] == Some(Downloads(files)[k])
  {
    nav := new DownloadNavigator(hasScroller);
    nav.RegisterAll(Registrations(files));
    RegistrationsFillTable(files);
  }

  //
  // What the slots as written do
  //

  function Summary2D(): Summary
  {
    Summary([1, 1], 2, Arr([Arr([Num(0.0)])]))
  }

  function Summary3D(): Summary
  {
    Summary([1, 1, 1], 3, Arr([Arr([Arr([Num(0.0)])])]))
  }

  /**
   * One file whose first array is 3D and whose second is 2D: the only button
   * lands in slot 1, slot 0 stays a hole, and since the cursor starts on it
   * the floating button never scrolls anywhere.
   */
  lemma HoleFreezesNavigation(n: nat)
    ensures var files := [("f", [("a", Summary3D()), ("b", Summary2D())])];
      && RegistrationsAsWritten(files) == [Registration(1, "f-b")]
      && ButtonTable([], RegistrationsAsWritten(files)) == [None, Some("f-b")]
      && CursorAfter(ButtonTable([], RegistrationsAsWritten(files)), 0, n) == 0
      && Step(true, ButtonTable([], RegistrationsAsWritten(files)), CursorAfter(ButtonTable([], RegistrationsAsWritten(files)), 0, n)).0 == None
  {
    var files := [("f", [("a", Summary3D()), ("b", Summary2D())])];
    var arrays := files[0].1;
    assert CsvName("f", "b") == "f-b";
    assert Summary2D().ndim == 2 && Summary3D().ndim == 3;
    assert arrays[..1] == [("a", Summary3D())];
    assert arrays[..1][..0] == [];
    assert FileRegistrationsAsWritten(0, "f", arrays[..1]) == [];
    assert FileRegistrationsAsWritten(0, "f", arrays) == [Registration(1, "f-b")];
    assert files[..0] == [];
    assert RegistrationsAsWritten(files) == [Registration(1, "f-b")];
    var regs := [Registration(1, "f-b")];
    assert regs[..0] == [];
    assert ButtonTable([], regs) == [None, Some("f-b")];
    HoleFreezes([None, Some("f-b")], 0, n);
  }

  function CollidingFiles(): Files
  {
    [("f", [("a", Summary2D()), ("b", Summary2D())]), ("g", [("c", Summary2D())])]
  }

  lemma CollidingRegistrations()
    ensures RegistrationsAsWritten(CollidingFiles()) == [Registration(0, "f-a"), Registration(1, "f-b"), Registration(1, "g-c")]
  {
    var f := [("a", Summary2D()), ("b", Summary2D())];
    var g := [("c", Summary2D())];
    var files := [("f", f), ("g", g)];
    assert CsvName("f", "a") == "f-a" && CsvName("f", "b") == "f-b" && CsvName("g", "c") == "g-c";
    assert Summary2D().ndim == 2;
    assert f[..1] == [("a", Summary2D())] && f[..1][..0] == [] && g[..0] == [];
    assert FileRegistrationsAsWritten(0, "f", f[..1]) == [Registration(0, "f-a")];
    assert FileRegistrationsAsWritten(0, "f", f) == [Registration(0, "f-a"), Registration(1, "f-b")];
    assert FileRegistrationsAsWritten(1, "g", g) == [Registration(1, "g-c")];
    assert files[..1] == [("f", f)] && files[..1][..0] == [];
    assert RegistrationsAsWritten(files[..1]) == [Registration(0, "f-a"), Registration(1, "f-b")];
  }

  lemma CollidingDownloads()
    ensures Downloads(CollidingFiles()) == ["f-a", "f-b", "g-c"]
  {
    var f := [("a", Summary2D()), ("b", Summary2D())];
    var g := [("c", Summary2D())];
    var files := [("f", f), ("g", g)];
    assert CsvName("f", "a") == "f-a" && CsvName("f", "b") == "f-b" && CsvName("g", "c") == "g-c";
    assert Summary2D().ndim == 2;
    assert f[..1] == [("a", Summary2D())] && f[..1][..0] == [] && g[..0] == [];
    assert FileDownloads("f", f[..1]) == ["f-a"];
    assert FileDownloads("f", f) == ["f-a", "f-b"];
    assert FileDownloads("g", g) == ["g-c"];
    assert files[..1] == [("f", f)] && files[..1][..0] == [];
    assert Downloads(files[..1]) == ["f-a", "f-b"];
  }

  /**
   * Two files of 2D arrays: file 0's second array and file 1's first both
   * take slot 1, the later write wins, and `f-b` can no longer be reached.
   */
  lemma SlotsCollide()
    ensures RegistrationsAsWritten(CollidingFiles()) == [Registration(0, "f-a"), Registration(1, "f-b"), Registration(1, "g-c")]
    ensures ButtonTable([], RegistrationsAsWritten(CollidingFiles())) == [Some("f-a"), Some("g-c")]
    ensures "f-b" in Downloads(CollidingFiles()) && Some("f-b") !in ButtonTable([], RegistrationsAsWritten(CollidingFiles()))
  {
    CollidingRegistrations();
    CollidingDownloads();
    var regs := [Registration(0, "f-a"), Registration(1, "f-b"), Registration(1, "g-c")];
    assert regs[..2] == [Registration(0, "f-a"), Registration(1, "f-b")];
    assert regs[..2][..1] == [Registration(0, "f-a")] && regs[..2][..1][..0] == [];
    assert ButtonTable([], regs[..2][..1]) == [Some("f-a")];
    assert ButtonTable([], regs[..2]) == [Some("f-a"), Some("f-b")];
    assert ButtonTable([], regs) == [Some("f-a"), Some("g-c")];
  }

  /** With the corrected slots the same two examples put every button in reach. */
  lemma CorrectedExamples()
    ensures ButtonTable([], Registrations([("f", [("a", Summary3D()), ("b", Summary2D())])])) == [Some("f-b")]
    ensures ButtonTable([], Registrations(CollidingFiles())) == [Some("f-a"), Some("f-b"), Some("g-c")]
  {
    CollidingDownloads();
    RegistrationsFillTable(CollidingFiles());
  }
}
