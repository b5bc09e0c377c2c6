/**
 * The district catalog built once at start-up by `load_and_filter_map`:
 * the boundary rows of the whole country are filtered down to one
 * province, the district-name column `ad` is renamed to `ilce`, and the
 * sorted, duplicate-free list of district names is derived for the
 * selection menu.
 */
module Catalog {
  import opened Wrappers
  import opened TextOrder

  /** The province the catalog keeps (`ANKARA_IL_ADI`). */
  const Province: string := "Ankara"

  /** A geometry, never looked into. */
  datatype Geometry = Geometry(token: nat)

  /** One boundary row: its `il_adi`, its district name (None for a null cell), its geometry. */
  datatype Row = Row(province: string, name: Option<string>, geometry: Geometry)

  /** The header under which a frame carries the district name, if any. */
  datatype NameColumn = Ad | Ilce | Absent

  /** A boundary frame: its district-name header and its rows in order. */
  datatype Frame = Frame(nameColumn: NameColumn, rows: seq<Row>)

  /** What the geometry reader yields: whether there is an `il_adi` column, the name header, the rows. */
  datatype Source = Source(hasProvinceColumn: bool, nameColumn: NameColumn, rows: seq<Row>)

  /** Reading the boundary file either raises or yields a source. */
  datatype ReadResult = ReadFailed | Read(source: Source)

  /** The two globals the load assigns: the catalog (None until a frame is stored) and the district list. */
  datatype Loaded = Loaded(catalog: Option<Frame>, districts: seq<string>)

  /** The rows whose province equals `province` exactly, in their original order. */
  function FilterProvince(rows: seq<Row>, province: string): (kept: seq<Row>)
    ensures |kept| <= |rows|
    ensures forall x :: x in kept ==> x in rows && x.province == province
  {
    if |rows| == 0 then []
    else
      var rest := FilterProvince(rows[1..], province);
      if rows[0].province == province then [rows[0]] + rest else rest
  }

  /** Filtering distributes over concatenation, so relative order is kept. */
  lemma {:induction false} FilterAppend(a: seq<Row>, b: seq<Row>, province: string)
    ensures FilterProvince(a + b, province) == FilterProvince(a, province) + FilterProvince(b, province)
  {
    if |a| == 0 {
      assert a + b == b;
    } else {
      assert (a + b)[0] == a[0];
      assert (a + b)[1..] == a[1..] + b;
      FilterAppend(a[1..], b, province);
    }
  }

  /** Each row of the province is kept as often as it occurs; every other row is dropped. */
  lemma {:induction false} FilterCount(rows: seq<Row>, province: string, x: Row)
    ensures multiset(FilterProvince(rows, province))[x]
         == if x.province == province then multiset(rows)[x] else 0
  {
    if |rows| > 0 {
      FilterCount(rows[1..], province, x);
      assert rows == [rows[0]] + rows[1..];
    }
  }

  /** Filtering keeps a row exactly when it is one of the province's rows. */
  lemma FilterMembership(rows: seq<Row>, province: string, x: Row)
    ensures x in FilterProvince(rows, province) <==> x in rows && x.province == province
  {
    FilterCount(rows, province, x);
  }

  /** Every row has a district name. */
  predicate AllNamed(rows: seq<Row>)
  {
    forall i :: 0 <= i < |rows| ==> rows[i].name.Some?
  }

  /** The district-name column. */
  function Names(rows: seq<Row>): (names: seq<string>)
    requires AllNamed(rows)
    ensures |names| == |rows|
  {
    seq(|rows|, i requires 0 <= i < |rows| => rows[i].name.value)
  }

  /** The set of district names present in the rows. */
  function NameSet(rows: seq<Row>): set<string>
  {
    set x | x in rows && x.name.Some? :: x.name.value
  }

  /** `sorted(frame['ilce'].unique())`. */
  function DistrictList(rows: seq<Row>): (list: seq<string>)
    requires AllNamed(rows)
    ensures StrictlySorted(list)
    ensures Elements(list) == NameSet(rows)
  {
    var names := Names(rows);
    assert Elements(names) == NameSet(rows) by {
      forall y | y in NameSet(rows) ensures y in Elements(names) {
        var x :| x in rows && x.name.Some? && x.name.value == y;
        var i :| 0 <= i < |rows| && rows[i] == x;
        assert names[i] == y;
      }
    }
    SortedUnique(names)
  }

  /** The district list is the one sorted, duplicate-free enumeration of the catalog's names. */
  lemma DistrictListIsTheSortedNames(rows: seq<Row>, list: seq<string>)
    requires AllNamed(rows)
    requires StrictlySorted(list) && Elements(list) == NameSet(rows)
    ensures list == DistrictList(rows)
  {
    SortedEnumerationUnique(list, DistrictList(rows));
  }

  /**
   * The globals after `load_and_filter_map`, from the reader's outcome and
   * the globals before it. A failed read or a missing `il_adi` column raises
   * before anything is assigned; an empty filter or a missing `ad` column
   * stores the filtered frame as it is; a null name among the renamed rows
   * makes `sorted` raise after the frame is stored.
   */
  function LoadAndFilter(read: ReadResult, prior: Loaded): (after: Loaded)
    ensures StrictlySorted(prior.districts) ==> StrictlySorted(after.districts)
    ensures after.catalog != prior.catalog ==> after.catalog.Some?
  {
    match read
    case ReadFailed => prior
    case Read(source) =>
      if !source.hasProvinceColumn then prior
      else
        var kept := FilterProvince(source.rows, Province);
        if |kept| == 0 || source.nameColumn != Ad then
          Loaded(Some(Frame(source.nameColumn, kept)), prior.districts)
        else if !AllNamed(kept) then
          Loaded(Some(Frame(Ilce, kept)), prior.districts)
        else
          Loaded(Some(Frame(Ilce, kept)), DistrictList(kept))
  }

  /** A load succeeds when the file reads, has both columns, the province has rows and all of them are named. */
  predicate LoadSucceeds(read: ReadResult)
  {
    && read.Read?
    && read.source.hasProvinceColumn
    && read.source.nameColumn == Ad
    && |FilterProvince(read.source.rows, Province)| > 0
    && AllNamed(FilterProvince(read.source.rows, Province))
  }

  /**
   * After a successful load the catalog is exactly the filtered rows (the
   * province's rows in their order) under the `ilce` header, and the
   * district list is sorted strictly ascending and holds exactly the
   * catalog's names.
   */
  lemma LoadedCatalog(read: ReadResult, prior: Loaded, x: Row)
    requires LoadSucceeds(read)
    ensures LoadAndFilter(read, prior).catalog.Some?
    ensures LoadAndFilter(read, prior).catalog == Some(Frame(Ilce, FilterProvince(read.source.rows, Province)))
    ensures x in LoadAndFilter(read, prior).catalog.value.rows
        <==> x in read.source.rows && x.province == Province
    ensures StrictlySorted(LoadAndFilter(read, prior).districts)
    ensures Elements(LoadAndFilter(read, prior).districts)
         == NameSet(LoadAndFilter(read, prior).catalog.value.rows)
  {
    FilterMembership(read.source.rows, Province, x);
  }

  /** Failures that raise before the first assignment leave both globals as they were. */
  lemma LoadFailsEarly(read: ReadResult, prior: Loaded)
    requires read.ReadFailed? || !read.source.hasProvinceColumn
    ensures LoadAndFilter(read, prior) == prior
  {
  }

  /**
   * An empty filter stores the empty frame, not None, and a missing `ad`
   * column stores the unrenamed filtered frame; the district list is kept.
   */
  lemma LoadStoresUnrenamedFrame(read: ReadResult, prior: Loaded)
    requires read.Read? && read.source.hasProvinceColumn
    requires |FilterProvince(read.source.rows, Province)| == 0 || read.source.nameColumn != Ad
    ensures LoadAndFilter(read, prior)
         == Loaded(Some(Frame(read.source.nameColumn, FilterProvince(read.source.rows, Province))),
                   prior.districts)
  {
  }
}
