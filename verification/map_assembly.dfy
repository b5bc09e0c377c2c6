/**
 * The map document of `get_map_data`: the catalog rows are left-merged on
 * `ilce` with the (district, average) pairs of one metric, and each merged
 * row is coloured by the threshold rule.
 */
module MapAssembly {
  import opened Wrappers
  import opened Catalog
  import opened Classification

  /** A (district, average) pair of the frame built from the store's items. */
  type Item = (string, Option<real>)

  /** A row of the merged frame: the catalog row and its `ortalama`. */
  datatype Joined = Joined(row: Row, average: Option<real>)

  /** A row of the map document: the catalog row, `ortalama` and `renk`. */
  datatype Feature = Feature(row: Row, average: Option<real>, color: string)

  /** The keys of a list of pairs. */
  function Keys(items: seq<Item>): set<string>
  {
    set i | 0 <= i < |items| :: items[i].0
  }

  /** `items` lists the dictionary `values`, each key once (as `list(d.items())` does). */
  ghost predicate ListsMap(items: seq<Item>, values: map<string, Option<real>>)
  {
    && (forall i, j :: 0 <= i < j < |items| ==> items[i].0 != items[j].0)
    && (forall i :: 0 <= i < |items| ==> items[i].0 in values && values[items[i].0] == items[i].1)
    && Keys(items) == values.Keys
  }

  /** The averages of the pairs whose key equals the row's name, in order. */
  function Matches(name: Option<string>, items: seq<Item>): seq<Option<real>>
  {
    if |items| == 0 then []
    else (if name == Some(items[0].0) then [items[0].1] else []) + Matches(name, items[1..])
  }

  /** A left merge emits one row per match, or the row with no average when nothing matches. */
  function MergeRow(row: Row, items: seq<Item>): seq<Joined>
  {
    var found := Matches(row.name, items);
    if |found| == 0 then [Joined(row, None)]
    else seq(|found|, j requires 0 <= j < |found| => Joined(row, found[j]))
  }

  /** `frame.merge(items, on='ilce', how='left')`: left rows in order, each expanded by its matches. */
  function LeftMerge(rows: seq<Row>, items: seq<Item>): (merged: seq<Joined>)
    ensures |merged| >= |rows|
    ensures forall j :: 0 <= j < |merged| ==> merged[j].row in rows
  {
    if |rows| == 0 then [] else MergeRow(rows[0], items) + LeftMerge(rows[1..], items)
  }

  /** `how='left'`: every catalog row appears in the merged frame, matched or not. */
  lemma {:induction false} LeftMergeKeepsEveryRow(rows: seq<Row>, items: seq<Item>, i: nat)
    requires i < |rows|
    ensures exists j :: 0 <= j < |LeftMerge(rows, items)| && LeftMerge(rows, items)[j].row == rows[i]
  {
    var head: seq<Joined> := MergeRow(rows[0], items);
    var rest: seq<Joined> := LeftMerge(rows[1..], items);
    assert LeftMerge(rows, items) == head + rest;
    if i == 0 {
      assert (head + rest)[0].row == rows[0];
    } else {
      LeftMergeKeepsEveryRow(rows[1..], items, i - 1);
      var k :| 0 <= k < |rest| && rest[k].row == rows[1..][i - 1];
      assert (head + rest)[|head| + k] == rest[k];
    }
  }

  /** The stored average of a district, None when the name is null or has no entry. */
  function Lookup(values: map<string, Option<real>>, name: Option<string>): Option<real>
  {
    if name.Some? && name.value in values then values[name.value] else None
  }

  /** `merged['renk'] = merged['ortalama'].apply(get_color)`. */
  function Colorize(merged: seq<Joined>): (features: seq<Feature>)
    ensures |features| == |merged|
    ensures forall i :: 0 <= i < |merged| ==>
      && features[i].row == merged[i].row
      && features[i].average == merged[i].average
      && features[i].color == Color(merged[i].average)
      && (features[i].color == NoData <==> merged[i].average.None?)
  {
    seq(|merged|, i requires 0 <= i < |merged| => Feature(merged[i].row, merged[i].average, Color(merged[i].average)))
  }

  /**
   * The document the map endpoint promises: one feature per catalog row, in
   * catalog order, carrying the row's stored average (or none) and its colour.
   */
  function Annotate(rows: seq<Row>, values: map<string, Option<real>>): (features: seq<Feature>)
    ensures |features| == |rows|
  {
    seq(|rows|, i requires 0 <= i < |rows| => Feature(rows[i], Lookup(values, rows[i].name), Color(Lookup(values, rows[i].name))))
  }

  /** With no stored averages every row is grey and has no average. */
  lemma AnnotateWithoutData(rows: seq<Row>)
    ensures forall i :: 0 <= i < |rows| ==>
      Annotate(rows, map[])[i] == Feature(rows[i], None, NoData)
  {
  }

  /** With distinct keys a name matches at most one pair: the dictionary's entry. */
  lemma {:induction false} MatchesOfDistinctKeys(name: Option<string>, items: seq<Item>, values: map<string, Option<real>>)
    requires ListsMap(items, values)
    ensures Matches(name, items) == if name.Some? && name.value in values then [values[name.value]] else []
  {
    if |items| == 0 {
      assert values.Keys == {};
    } else {
      var k := items[0].0;
      var rest := values - {k};
      assert Keys(items[1..]) == rest.Keys by {
        assert Keys(items) == {k} + Keys(items[1..]) by {
          forall y | y in Keys(items) ensures y in {k} + Keys(items[1..]) {
            var i :| 0 <= i < |items| && items[i].0 == y;
            if i > 0 { assert items[1..][i - 1].0 == y; }
          }
        }
        assert k !in Keys(items[1..]);
      }
      MatchesOfDistinctKeys(name, items[1..], rest);
    }
  }

  /**
   * Because the store's keys are unique, the left merge never duplicates or
   * drops a catalog row: it is the per-row dictionary lookup.
   */
  lemma {:induction false} LeftMergeIsLookup(rows: seq<Row>, items: seq<Item>, values: map<string, Option<real>>)
    requires ListsMap(items, values)
    ensures LeftMerge(rows, items)
         == seq(|rows|, i requires 0 <= i < |rows| => Joined(rows[i], Lookup(values, rows[i].name)))
  {
    if |rows| > 0 {
      MatchesOfDistinctKeys(rows[0].name, items, values);
      LeftMergeIsLookup(rows[1..], items, values);
    }
  }

  /** The merged and coloured frame is the promised document. */
  lemma ColoredMergeIsAnnotate(rows: seq<Row>, items: seq<Item>, values: map<string, Option<real>>)
    requires ListsMap(items, values)
    ensures Colorize(LeftMerge(rows, items)) == Annotate(rows, values)
  {
    LeftMergeIsLookup(rows, items, values);
  }

  /** Without distinct keys a left merge duplicates a row: one catalog row, two merged rows. */
  lemma DuplicateKeysDuplicateRows(row: Row, a: Option<real>, b: Option<real>)
    requires row.name.Some?
    ensures |LeftMerge([row], [(row.name.value, a), (row.name.value, b)])| == 2
  {
    var items: seq<Item> := [(row.name.value, a), (row.name.value, b)];
    assert items[1..] == [(row.name.value, b)];
    assert items[1..][1..] == [];
    assert Matches(row.name, items[1..]) == [b];
    assert Matches(row.name, items) == [a, b];
  }

  lemma KeysAppend(items: seq<Item>, item: Item)
    ensures Keys(items + [item]) == Keys(items) + {item.0}
  {
    var longer := items + [item];
    forall y | y in Keys(longer) ensures y in Keys(items) + {item.0} {
      var i :| 0 <= i < |longer| && longer[i].0 == y;
      if i < |items| { assert items[i].0 == y; }
    }
    forall y | y in Keys(items) ensures y in Keys(longer) {
      var i :| 0 <= i < |items| && items[i].0 == y;
      assert longer[i].0 == y;
    }
    assert longer[|items|].0 == item.0;
  }

  /** `list(values.items())`: the dictionary's pairs, each key once. */
  method ItemsOf(values: map<string, Option<real>>) returns (items: seq<Item>)
    ensures ListsMap(items, values)
  {
    items := [];
    var rest := values.Keys;
    while rest != {}
      invariant rest <= values.Keys
      invariant forall i, j :: 0 <= i < j < |items| ==> items[i].0 != items[j].0
      invariant forall i :: 0 <= i < |items| ==> items[i].0 in values && values[items[i].0] == items[i].1
      invariant forall i :: 0 <= i < |items| ==> items[i].0 !in rest
      invariant Keys(items) + rest == values.Keys
      decreases rest
    {
      var k :| k in rest;
      KeysAppend(items, (k, values[k]));
      items := items + [(k, values[k])];
      rest := rest - {k};
    }
  }
}
