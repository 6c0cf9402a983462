/** The `images` table as an append-only sequence: the record at index i has
    the AUTOINCREMENT id i + 1. */
module Store {
  import opened Primitives

  /** One row of the table: the encoded image, its similarity to the capture
      before it, and its hash sum. */
  datatype Record = Record(image: seq<Byte>, similarity: Double, hashSum: int)

  /** The id the table gives the record stored at `index`. */
  function Id(index: nat): nat
  {
    index + 1
  }

  /** The table after one INSERT: one more record at the end when the query
      succeeds, the same table when it fails. */
  function Inserted(store: seq<Record>, r: Record, insertOk: bool): seq<Record>
  {
    if insertOk then store + [r] else store
  }

  /** `SELECT image FROM images ORDER BY id DESC LIMIT 1`: the image of the
      last record, if there is one. */
  function LatestImage(store: seq<Record>): Option<seq<Byte>>
  {
    if |store| == 0 then None else Some(store[|store| - 1].image)
  }

  /** The cached previous screen after TimeTracker::setLastScreenFromDB:
      the latest stored image, or the old cache when the table is empty. */
  function Refreshed(cache: seq<Byte>, store: seq<Record>): seq<Byte>
  {
    match LatestImage(store)
    case Some(image) => image
    case None => cache
  }

  /** The record at `index` has the highest id in the table. */
  ghost predicate HasHighestId(store: seq<Record>, index: int)
  {
    0 <= index < |store| && forall j :: 0 <= j < |store| ==> Id(j) <= Id(index)
  }

  /** LatestImage finds nothing exactly in an empty table, and otherwise
      returns the image of the record with the highest id. */
  lemma LatestImageHasHighestId(store: seq<Record>)
    ensures LatestImage(store).None? <==> store == []
    ensures store != [] ==> HasHighestId(store, |store| - 1)
    ensures forall i :: HasHighestId(store, i) ==> LatestImage(store) == Some(store[i].image)
  {
    forall i | HasHighestId(store, i)
      ensures i == |store| - 1
    {
      assert Id(|store| - 1) <= Id(i);
    }
  }

  /** An insert never changes the records already stored; a successful one
      adds exactly `r`, with an id one above every earlier id, and a failed one
      changes nothing. */
  lemma InsertedAppendsOnly(store: seq<Record>, r: Record, insertOk: bool)
    ensures var s := Inserted(store, r, insertOk);
      && |s| == |store| + (if insertOk then 1 else 0)
      && s[..|store|] == store
      && (insertOk ==> s[|store|] == r && HasHighestId(s, |store|))
  {
  }

  /** Right after a successful insert the latest image is the inserted one;
      after a failed insert it is what it was. */
  lemma LatestImageAfterInsert(store: seq<Record>, r: Record, insertOk: bool)
    ensures LatestImage(Inserted(store, r, insertOk))
         == if insertOk then Some(r.image) else LatestImage(store)
  {
  }
}
