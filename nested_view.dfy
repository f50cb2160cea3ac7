/**
 * `MultiDimensionalArray`: how an array of more than two dimensions is shown.
 * Data whose first element starts with an array becomes a collapsible section
 * per dimension, data whose first element is an array becomes a table, and
 * anything else a bracketed, comma-separated list. The component exists in
 * two copies; the newer one names its tables, the older one does not, and
 * `named` selects between them.
 */
module NestedView {
  import opened Wrappers
  import opened Text
  import opened Arrays

  datatype View =
    | Collapsible(title: string, children: seq<Child>)
    | Table(rows: Nested, name: Option<string>)
    | Flat(spans: seq<Span>)
      /** `data.map` on a value that is not an array throws. */
    | Crash

  /** One `Index i:` block inside a collapsible section. */
  datatype Child = Child(heading: string, body: View)

  /** One element of a flat list and the separator printed after it. */
  datatype Span = Span(value: Nested, separator: string)

  /** `Array.isArray(x[0])` for an array `x`: it has a first element, and that element is an array. */
  predicate LeadsWithArray(n: Nested)
  {
    n.Arr? && |n.items| > 0 && n.items[0].Arr?
  }

  function DimensionTitle(depth: nat, count: nat): string
  {
    "Dimension " + NatToString(depth + 1) + " (" + NatToString(count) + " items)"
  }

  function TableName(named: bool, name: string): Option<string>
  {
    if named then Some(name) else None
  }

  /** The elements of a flat list: `, ` after each one but the last. */
  function Spans(items: seq<Nested>): (spans: seq<Span>)
    ensures |spans| == |items|
    ensures forall i :: 0 <= i < |items| ==>
      spans[i].value == items[i] && (spans[i].separator == ", " <==> i < |items| - 1)
    ensures forall i :: 0 <= i < |items| ==> spans[i].separator == "" || spans[i].separator == ", "
  {
    seq(|items|, i requires 0 <= i < |items| => Span(items[i], if i < |items| - 1 then ", " else ""))
  }

  /** The component as a function of `(data, depth)`. */
  function Render(data: Nested, depth: nat, named: bool): View
    decreases data
  {
    if LeadsWithArray(data) && LeadsWithArray(data.items[0]) then
      Collapsible(
        DimensionTitle(depth, |data.items|),
        seq(|data.items|, i requires 0 <= i < |data.items| =>
          Child(
            "Index " + NatToString(i) + ":",
            if LeadsWithArray(data.items[i]) then Render(data.items[i], depth + 1, named)
            else Table(data.items[i], TableName(named, "dim-" + NatToString(depth + 1) + "-index-" + NatToString(i))))))
    else if LeadsWithArray(data) then
      Table(data, TableName(named, "dim-" + NatToString(depth)))
    else if data.Arr? then
      Flat(Spans(data.items))
    else
      Crash
  }

  /** Which of the four shapes the view takes is decided by the first element and its first element. */
  lemma RenderDispatch(data: Nested, depth: nat, named: bool)
    ensures Render(data, depth, named).Collapsible? <==> LeadsWithArray(data) && LeadsWithArray(data.items[0])
    ensures Render(data, depth, named).Table? <==> LeadsWithArray(data) && !LeadsWithArray(data.items[0])
    ensures Render(data, depth, named).Flat? <==> data.Arr? && !LeadsWithArray(data)
    ensures Render(data, depth, named).Crash? <==> data.Num?
  {
  }

  /**
   * A collapsible section is titled `Dimension depth+1 (n items)` and holds
   * one child per item, headed `Index i:`; an item that leads with an array
   * recurses one level deeper, any other item becomes the table
   * `dim-(depth+1)-index-i`.
   */
  lemma CollapsibleChildren(data: Nested, depth: nat, named: bool, i: nat)
    requires LeadsWithArray(data) && LeadsWithArray(data.items[0])
    requires i < |data.items|
    ensures Render(data, depth, named).title == DimensionTitle(depth, |data.items|)
    ensures |Render(data, depth, named).children| == |data.items|
    ensures Render(data, depth, named).children[i].heading == "Index " + NatToString(i) + ":"
    ensures LeadsWithArray(data.items[i]) ==>
      Render(data, depth, named).children[i].body == Render(data.items[i], depth + 1, named)
    ensures !LeadsWithArray(data.items[i]) ==>
      Render(data, depth, named).children[i].body ==
        Table(data.items[i], TableName(named, "dim-" + NatToString(depth + 1) + "-index-" + NatToString(i)))
  {
  }

  /** Data that is a matrix becomes one table named `dim-depth`. */
  lemma MatrixIsOneTable(data: Nested, depth: nat)
    requires LeadsWithArray(data) && !LeadsWithArray(data.items[0])
    ensures Render(data, depth, true) == Table(data, Some("dim-" + NatToString(depth)))
    ensures Render(data, depth, false) == Table(data, None)
  {
  }

  function MaxOf(xs: seq<nat>): (m: nat)
    ensures forall i :: 0 <= i < |xs| ==> xs[i] <= m
    ensures |xs| == 0 ==> m == 0
  {
    if |xs| == 0 then 0
    else
      var rest := MaxOf(xs[1..]);
      assert forall i :: 1 <= i < |xs| ==> xs[i] == xs[1..][i - 1];
      if xs[0] > rest then xs[0] else rest
  }

  /** How deeply the lists nest: 0 for a number, one more than the deepest item for a list. */
  function NestDepth(n: Nested): nat
  {
    match n
    case Num(_) => 0
    case Arr(items) => 1 + MaxOf(seq(|items|, i requires 0 <= i < |items| => NestDepth(items[i])))
  }

  /** How many collapsible sections sit inside one another. */
  function Levels(v: View): nat
  {
    match v
    case Collapsible(_, children) =>
      1 + MaxOf(seq(|children|, i requires 0 <= i < |children| => Levels(children[i].body)))
    case _ => 0
  }

  lemma ItemDepth(data: Nested, i: nat)
    requires data.Arr? && i < |data.items|
    ensures NestDepth(data.items[i]) + 1 <= NestDepth(data)
  {
    var ds := seq(|data.items|, j requires 0 <= j < |data.items| => NestDepth(data.items[j]));
    assert ds[i] == NestDepth(data.items[i]);
  }

  /**
   * Each collapsible level consumes one level of nesting, and the innermost
   * ones still hold a matrix: the sections nest at most depth - 2 deep.
   */
  lemma {:induction false} LevelsBounded(data: Nested, depth: nat, named: bool)
    ensures Levels(Render(data, depth, named)) + 2 <= NestDepth(data) || Levels(Render(data, depth, named)) == 0
  {
    var v := Render(data, depth, named);
    if v.Collapsible? {
      var items := data.items;
      ItemDepth(data, 0);
      ItemDepth(items[0], 0);
      var ls := seq(|v.children|, i requires 0 <= i < |v.children| => Levels(v.children[i].body));
      forall i | 0 <= i < |ls| ensures ls[i] + 3 <= NestDepth(data) {
        CollapsibleChildren(data, depth, named, i);
        ItemDepth(data, i);
        if LeadsWithArray(items[i]) {
          LevelsBounded(items[i], depth + 1, named);
        }
      }
      assert Levels(v) == 1 + MaxOf(ls);
      if |ls| > 0 {
        MaxIsOne(ls);
      }
    }
  }

  /** The maximum of a non-empty list is one of its elements. */
  lemma {:induction false} MaxIsOne(xs: seq<nat>)
    requires |xs| > 0
    ensures exists i :: 0 <= i < |xs| && xs[i] == MaxOf(xs)
  {
    var rest := MaxOf(xs[1..]);
    assert MaxOf(xs) == if xs[0] > rest then xs[0] else rest;
    if |xs| == 1 || xs[0] > rest {
      assert xs[0] == MaxOf(xs);
    } else {
      MaxIsOne(xs[1..]);
      var i :| 0 <= i < |xs[1..]| && xs[1..][i] == rest;
      assert xs[i + 1] == MaxOf(xs);
    }
  }

  /** The view with every table name dropped. */
  function EraseNames(v: View): View
  {
    match v
    case Collapsible(title, children) =>
      Collapsible(title, seq(|children|, i requires 0 <= i < |children| => Child(children[i].heading, EraseNames(children[i].body))))
    case Table(rows, _) => Table(rows, None)
    case _ => v
  }

  /** The two copies differ only in the table names. */
  lemma {:induction false} CopiesAgree(data: Nested, depth: nat)
    ensures EraseNames(Render(data, depth, true)) == Render(data, depth, false)
  {
    var v, w := Render(data, depth, true), Render(data, depth, false);
    if v.Collapsible? {
      var e := EraseNames(v);
      assert |e.children| == |w.children|;
      forall i | 0 <= i < |w.children| ensures e.children[i] == w.children[i] {
        CollapsibleChildren(data, depth, true, i);
        CollapsibleChildren(data, depth, false, i);
        assert e.children[i] == Child(v.children[i].heading, EraseNames(v.children[i].body));
        if LeadsWithArray(data.items[i]) {
          CopiesAgree(data.items[i], depth + 1);
        }
      }
    }
  }

  function Concat(parts: seq<string>): string
  {
    if |parts| == 0 then "" else parts[0] + Concat(parts[1..])
  }

  /** The text of a flat list: `[`, each element followed by its separator, `]`. */
  function FlatText(spans: seq<Span>, show: Nested -> string): string
  {
    "[" + Concat(seq(|spans|, i requires 0 <= i < |spans| => show(spans[i].value) + spans[i].separator)) + "]"
  }

  lemma {:induction false} ConcatSeparated(xs: seq<string>, sep: string)
    ensures Concat(seq(|xs|, i requires 0 <= i < |xs| => xs[i] + (if i < |xs| - 1 then sep else ""))) == Join(xs, sep)
  {
    var parts := seq(|xs|, i requires 0 <= i < |xs| => xs[i] + (if i < |xs| - 1 then sep else ""));
    if |xs| == 1 {
      assert parts[1..] == [];
    } else if |xs| > 1 {
      var rest := seq(|xs[1..]|, i requires 0 <= i < |xs[1..]| => xs[1..][i] + (if i < |xs[1..]| - 1 then sep else ""));
      assert parts[1..] == rest;
      ConcatSeparated(xs[1..], sep);
      assert parts[0] == xs[0] + sep;
    }
  }

  /** A flat list reads `[` + the elements joined by `, ` + `]`: separators only between elements. */
  lemma FlatListText(items: seq<Nested>, show: Nested -> string)
    ensures FlatText(Spans(items), show) == "[" + Join(seq(|items|, i requires 0 <= i < |items| => show(items[i])), ", ") + "]"
  {
    var xs := seq(|items|, i requires 0 <= i < |items| => show(items[i]));
    var spans := Spans(items);
    assert seq(|spans|, i requires 0 <= i < |spans| => show(spans[i].value) + spans[i].separator)
      == seq(|xs|, i requires 0 <= i < |xs| => xs[i] + (if i < |xs| - 1 then ", " else ""));
    ConcatSeparated(xs, ", ");
  }
}
