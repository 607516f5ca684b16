/** src/commands/list.rs: the rows of the `ls` command, in one of three orders. */
module List {
  import opened Errors
  import opened Text
  import Sorting
  import Config

  datatype SortOrder = Name | Url | Default

  /** One listed registry; `isCurrent` is the marker of the selected one. */
  datatype Row = Row(name: string, url: string, isCurrent: bool)

  /** `usize::MAX` on a 64-bit target. */
  const UsizeMax: nat := 0xFFFF_FFFF_FFFF_FFFF

  /** The index of the first occurrence of `name`, or |order| when there is none. */
  function IndexOf(order: seq<string>, name: string): (i: nat)
    ensures i <= |order|
    ensures i < |order| ==> order[i] == name
    ensures forall j :: 0 <= j < i ==> order[j] != name
  {
    if order == [] || order[0] == name then 0 else 1 + IndexOf(order[1..], name)
  }

  /** The sort key of the default order: the first position of the name in
      the display order, or `usize::MAX` for a name it does not list. */
  function Position(order: seq<string>, name: string): (p: nat)
    ensures name in order ==> p < |order| && order[p] == name && forall j :: 0 <= j < p ==> order[j] != name
    ensures name !in order ==> p == UsizeMax
  {
    var i := IndexOf(order, name);
    if i < |order| then i else UsizeMax
  }

  /** The comparator of each sort order, as "a is not Greater than b". */
  function Comparator(sort: SortOrder, order: seq<string>): ((string, string), (string, string)) -> bool {
    match sort
    case Name => (a: (string, string), b: (string, string)) => LexLe(a.0, b.0)
    case Url => (a: (string, string), b: (string, string)) => LexLe(a.1, b.1)
    case Default => (a: (string, string), b: (string, string)) => Position(order, a.0) <= Position(order, b.0)
  }

  lemma ComparatorSorts(sort: SortOrder, order: seq<string>)
    ensures Sorting.IsTotalPreorder(Comparator(sort, order))
  {
    var le := Comparator(sort, order);
    forall a, b ensures le(a, b) || le(b, a) {
      LexLeTotal(a.0, b.0);
      LexLeTotal(a.1, b.1);
    }
    forall a, b, c | le(a, b) && le(b, c) ensures le(a, c) {
      if sort == Name {
        LexLeTransitive(a.0, b.0, c.0);
      } else if sort == Url {
        LexLeTransitive(a.1, b.1, c.1);
      }
    }
  }

  function Entries(rows: seq<Row>): seq<(string, string)> {
    seq(|rows|, i requires 0 <= i < |rows| => (rows[i].name, rows[i].url))
  }

  /** `list::execute`: every built-in and every custom (name, URL) pair
      once, ordered by the chosen key, the selected registry marked. */
  method Execute(config: Config.Config, sort: SortOrder) returns (rows: seq<Row>)
    ensures multiset(Entries(rows)) == multiset(config.registries.Items) + multiset(config.customRegistries.Items)
    ensures sort == Name ==> forall i, j :: 0 <= i < j < |rows| ==> LexLe(rows[i].name, rows[j].name)
    ensures sort == Url ==> forall i, j :: 0 <= i < j < |rows| ==> LexLe(rows[i].url, rows[j].url)
    ensures sort == Default ==> forall i, j :: 0 <= i < j < |rows| ==>
      Position(config.registryOrder, rows[i].name) <= Position(config.registryOrder, rows[j].name)
    ensures forall i :: 0 <= i < |rows| ==> (rows[i].isCurrent <==> config.current == Some(rows[i].name))
  {
    var builtins := Sorting.Collect(config.registries.Items);
    var customs := Sorting.Collect(config.customRegistries.Items);
    var le := Comparator(sort, config.registryOrder);
    ComparatorSorts(sort, config.registryOrder);
    var sorted := Sorting.SortBy(builtins + customs, le);
    rows := [];
    for i := 0 to |sorted|
      invariant |rows| == i
      invariant forall k :: 0 <= k < i ==>
        rows[k] == Row(sorted[k].0, sorted[k].1, config.current == Some(sorted[k].0))
    {
      rows := rows + [Row(sorted[i].0, sorted[i].1, config.current == Some(sorted[i].0))];
    }
    assert Entries(rows) == sorted;
  }

  /** In the default order a registry missing from the display order is
      listed after every registry the display order names. */
  lemma UnlistedComeLast(order: seq<string>, rows: seq<Row>, i: nat, j: nat)
    requires |order| < UsizeMax
    requires forall i, j :: 0 <= i < j < |rows| ==> Position(order, rows[i].name) <= Position(order, rows[j].name)
    requires i < |rows| && j < |rows| && rows[i].name in order && rows[j].name !in order
    ensures i < j
  {
  }
}
