/**
 * The process-wide state of the application and its request handlers:
 * the catalog and district list assigned by `load_and_filter_map`, the
 * metric store `processed_data`, the upload handler `upload_data` and the
 * map endpoint `get_map_data`. Handlers return the reply they would
 * serialise (success flag, HTTP status, outcome) instead of JSON text.
 */
module Server {
  import opened Wrappers
  import opened TextOrder
  import opened Aggregation
  import opened Catalog
  import opened Classification
  import opened MapAssembly

  /** The metric keys of the store. */
  const Temperature: string := "sicaklik"
  const Humidity: string := "nem"
  const Slope: string := "egim"

  /** metric -> district -> mean; None is a NaN mean. */
  type Store = map<string, map<string, Option<real>>>

  /** A parsed CSV upload: each column header with its numeric cells (None for an empty cell). */
  datatype Table = Table(columns: map<string, seq<Option<real>>>)

  /** The `file` form part: absent, present without a file name, or a CSV that did (Some) or did not (None) parse. */
  datatype FilePart = NoFilePart | Unnamed | Csv(table: Option<Table>)

  /** The form fields of an upload; None is a field that is not in the form. */
  datatype UploadRequest = UploadRequest(dataType: Option<string>, district: Option<string>, file: FilePart)

  datatype UploadOutcome =
    | Recorded(district: string, average: Option<real>)
    | NoFileChosen
    | MissingColumn
    | Unsupported
    | Failed

  datatype UploadReply = UploadReply(success: bool, status: nat, outcome: UploadOutcome)

  datatype MapError = CatalogUnavailable | Internal

  datatype MapReply = MapFailed(status: nat, error: MapError) | MapDocument(features: seq<Feature>)

  /** `store[metric][district] = average`: one entry replaced or added, every other entry as it was. */
  function Record(store: Store, metric: string, district: string, average: Option<real>): (after: Store)
    requires metric in store
    ensures after.Keys == store.Keys
    ensures district in after[metric] && after[metric][district] == average
    ensures forall m, d :: m in store && (m != metric || d != district) ==>
      (d in after[m] <==> d in store[m]) && (d in store[m] ==> after[m][d] == store[m][d])
  {
    store[metric := store[metric][district := average]]
  }

  /** A later upload for the same district replaces the earlier mean; nothing is averaged across uploads. */
  lemma LastWriteWins(store: Store, metric: string, district: string, first: Option<real>, second: Option<real>)
    requires metric in store
    ensures Record(Record(store, metric, district, first), metric, district, second)
         == Record(store, metric, district, second)
  {
    var inner := store[metric];
    assert inner[district := first][district := second] == inner[district := second];
    assert store[metric := inner[district := first]][metric := inner[district := second]]
        == store[metric := inner[district := second]];
  }

  /** The form has all three fields (a missing one raises before anything else). */
  predicate HasFields(req: UploadRequest)
  {
    req.dataType.Some? && req.district.Some? && !req.file.NoFilePart?
  }

  /** The form has all fields and the CSV parsed. */
  predicate Parsed(req: UploadRequest)
  {
    HasFields(req) && req.file.Csv? && req.file.table.Some?
  }

  class App {
    var catalog: Option<Frame>
    var districts: seq<string>
    var store: Store

    ghost predicate Valid()
      reads this
    {
      StrictlySorted(districts) && store.Keys == {Temperature, Humidity, Slope}
    }

    /** The globals as the module defines them, before the map is loaded. */
    constructor ()
      ensures Valid()
      ensures catalog == None && districts == []
      ensures store == map[Temperature := map[], Humidity := map[], Slope := map[]]
    {
      catalog := None;
      districts := [];
      store := map[Temperature := map[], Humidity := map[], Slope := map[]];
    }

    /** `load_and_filter_map`, given what reading the boundary file produced. */
    method LoadAndFilterMap(read: ReadResult)
      requires Valid()
      modifies this
      ensures Valid() && store == old(store)
      ensures Loaded(catalog, districts) == LoadAndFilter(read, Loaded(old(catalog), old(districts)))
    {
      if read.ReadFailed? {
        return;
      }
      var source := read.source;
      if !source.hasProvinceColumn {
        return;
      }
      var kept := FilterProvince(source.rows, Province);
      catalog := Some(Frame(source.nameColumn, kept));
      if |kept| == 0 {
        return;
      }
      if source.nameColumn != Ad {
        return;
      }
      catalog := Some(Frame(Ilce, kept));
      if !AllNamed(kept) {
        return;
      }
      districts := DistrictList(kept);
    }

    /** `upload_data`: only `sicaklik` is recorded, as the mean of its column, replacing any earlier mean. */
    method UploadData(req: UploadRequest) returns (reply: UploadReply)
      requires Valid()
      modifies this
      ensures Valid() && catalog == old(catalog) && districts == old(districts)
      ensures !HasFields(req) ==> reply == UploadReply(false, 500, Failed)
      ensures HasFields(req) && req.file.Unnamed? ==> reply == UploadReply(false, 400, NoFileChosen)
      ensures HasFields(req) && req.file == Csv(None) ==> reply == UploadReply(false, 500, Failed)
      ensures Parsed(req) && req.dataType.value == Temperature && Temperature !in req.file.table.value.columns ==>
        reply == UploadReply(false, 400, MissingColumn)
      ensures Parsed(req) && req.dataType.value != Temperature ==> reply == UploadReply(false, 200, Unsupported)
      ensures Parsed(req) && req.dataType.value == Temperature && Temperature in req.file.table.value.columns ==>
        var average := Mean(req.file.table.value.columns[Temperature]);
        && reply == UploadReply(true, 200, Recorded(req.district.value, average))
        && store == Record(old(store), Temperature, req.district.value, average)
      ensures !reply.success ==> store == old(store)
    {
      if !HasFields(req) {
        return UploadReply(false, 500, Failed);
      }
      var dataType, district := req.dataType.value, req.district.value;
      if req.file.Unnamed? {
        return UploadReply(false, 400, NoFileChosen);
      }
      if req.file.table.None? {
        return UploadReply(false, 500, Failed);
      }
      var table := req.file.table.value;
      if dataType == Temperature {
        if Temperature !in table.columns {
          return UploadReply(false, 400, MissingColumn);
        }
        var average := Mean(table.columns[Temperature]);
        store := Record(store, dataType, district, average);
        return UploadReply(true, 200, Recorded(district, average));
      } else {
        return UploadReply(false, 200, Unsupported);
      }
    }

    /**
     * `get_map_data`: one feature per catalog row in catalog order, with the
     * row's stored mean and its colour; grey everywhere when the metric has
     * no entries; a 500 when the catalog never loaded or has no `ilce` column
     * to merge on. Neither the catalog nor the store is changed.
     */
    method GetMapData(metric: string) returns (reply: MapReply)
      ensures catalog.None? ==> reply == MapFailed(500, CatalogUnavailable)
      ensures catalog.Some? && (metric !in store || store[metric] == map[]) ==>
        && reply.MapDocument?
        && |reply.features| == |catalog.value.rows|
        && forall i :: 0 <= i < |catalog.value.rows| ==>
             reply.features[i] == Feature(catalog.value.rows[i], None, NoData)
      ensures catalog.Some? && metric in store && store[metric] != map[] && catalog.value.nameColumn != Ilce ==>
        reply == MapFailed(500, Internal)
      ensures catalog.Some? && metric in store && store[metric] != map[] && catalog.value.nameColumn == Ilce ==>
        reply == MapDocument(Annotate(catalog.value.rows, store[metric]))
    {
      if catalog.None? {
        return MapFailed(500, CatalogUnavailable);
      }
      var rows := catalog.value.rows;
      var values := if metric in store then store[metric] else map[];
      if values == map[] {
        var blank := seq(|rows|, i requires 0 <= i < |rows| => Joined(rows[i], None));
        return MapDocument(Colorize(blank));
      }
      if catalog.value.nameColumn != Ilce {
        return MapFailed(500, Internal);
      }
      var items := ItemsOf(values);
      var merged := LeftMerge(rows, items);
      ColoredMergeIsAnnotate(rows, items, values);
      return MapDocument(Colorize(merged));
    }
  }
}
