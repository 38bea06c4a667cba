/** The hash lookups of the note repository: the hash of one resource and the
    set of hashes a note owns.

    The RESOURCES table is a sequence of rows in the order the database
    returns them; only the columns these lookups read are kept. A query with
    no matching row yields null, and so does a SQL NULL in the HASH column.
 */
module ResourceQueries {
  import opened Base
  import opened HashPadding

  datatype ResourceRow = ResourceRow(guid: string, ownerGuid: string, hash: Option<string>)

  type Table = seq<ResourceRow>

  /** The first row of `SELECT ... FROM RESOURCES WHERE GUID=?`, if there is one. */
  function RowWithGuid(table: Table, resGuid: string): (r: Option<ResourceRow>)
    ensures r.Some? ==> r.value in table && r.value.guid == resGuid
    ensures r.Some? ==>
              exists i :: 0 <= i < |table| && table[i] == r.value
                          && forall j :: 0 <= j < i ==> table[j].guid != resGuid
    ensures r.None? <==> forall row :: row in table ==> row.guid != resGuid
  {
    if |table| == 0 then None
    else if table[0].guid == resGuid then Some(table[0])
    else RowWithGuid(table[1..], resGuid)
  }

  /** The hash of resource `resGuid`, normalised. A missing row or a SQL NULL
      hash is dereferenced by the padding and throws. */
  function GetDataHash(table: Table, resGuid: string): (r: Outcome<string>)
    ensures r.Returned? ==>
              exists row :: row in table && row.guid == resGuid && row.hash.Some?
                             && r.value == Padded(row.hash.value)
    ensures r.Returned? ==> |r.value| >= HashLength
    ensures (forall row :: row in table ==> row.guid != resGuid) ==> r == Threw(NullPointer)
    ensures r.Threw? ==> r.exception == NullPointer
    ensures RowWithGuid(table, resGuid).Some? && RowWithGuid(table, resGuid).value.hash.None? ==>
              r == Threw(NullPointer)
    ensures RowWithGuid(table, resGuid).Some? && RowWithGuid(table, resGuid).value.hash.Some? ==>
              r == Returned(Padded(RowWithGuid(table, resGuid).value.hash.value))
    ensures ((exists row :: row in table && row.guid == resGuid)
             && (forall row :: row in table && row.guid == resGuid ==> row.hash.Some?))
            ==> r.Returned?
  {
    match RowWithGuid(table, resGuid)
    case None => Threw(NullPointer)
    case Some(row) =>
      match row.hash
      case None => Threw(NullPointer)
      case Some(h) => Returned(Padded(h))
  }

  /** How many of the first `k` rows the note owns: an owned row's position in
      the owner query's result. */
  function Rank(table: Table, owner: string, k: nat): (n: nat)
    requires k <= |table|
    ensures n <= k
  {
    if k == 0 then 0
    else Rank(table, owner, k - 1) + (if table[k - 1].ownerGuid == owner then 1 else 0)
  }

  /** Ranking within the table minus its first row. */
  lemma {:induction false} RankTail(table: Table, owner: string, k: nat)
    requires 1 <= k <= |table|
    ensures Rank(table, owner, k)
            == (if table[0].ownerGuid == owner then 1 else 0) + Rank(table[1..], owner, k - 1)
  {
    if k > 1 {
      RankTail(table, owner, k - 1);
      assert table[1..][k - 2] == table[k - 1];
    }
  }

  /** The HASH column of `SELECT HASH FROM RESOURCES WHERE OWNERGUID=?`, in row
      order; `OwnedHashColumnExact` pins down its shape. */
  function OwnedHashColumn(table: Table, owner: string): (col: seq<Option<string>>)
    ensures |col| == Rank(table, owner, |table|)
    ensures |col| <= |table|
    ensures forall row :: row in table && row.ownerGuid == owner ==> row.hash in col
    ensures forall i :: 0 <= i < |col| ==>
              exists row :: row in table && row.ownerGuid == owner && row.hash == col[i]
    ensures |col| == 0 <==> forall row :: row in table ==> row.ownerGuid != owner
  {
    if |table| == 0 then []
    else
      var rest := OwnedHashColumn(table[1..], owner);
      assert forall row :: row in table[1..] ==> row in table;
      RankTail(table, owner, |table|);
      if table[0].ownerGuid == owner then [table[0].hash] + rest else rest
  }

  /** Row `i`, if the note owns it, gives the entry of `col` at its rank. */
  predicate AtRank(table: Table, owner: string, col: seq<Option<string>>, i: nat)
    requires i < |table|
  {
    table[i].ownerGuid == owner ==>
      Rank(table, owner, i) < |col| && col[Rank(table, owner, i)] == table[i].hash
  }

  /** The owner query yields exactly one entry per owned row, in row order: as
      many entries as owned rows, and the owned row of rank `n` gives entry `n`. */
  lemma {:induction false} OwnedHashColumnExact(table: Table, owner: string)
    ensures forall i :: 0 <= i < |table| ==> AtRank(table, owner, OwnedHashColumn(table, owner), i)
    decreases |table|
  {
    if |table| > 0 {
      var tail := table[1..];
      var col, rest := OwnedHashColumn(table, owner), OwnedHashColumn(tail, owner);
      var lead := if table[0].ownerGuid == owner then 1 else 0;
      OwnedHashColumnExact(tail, owner);
      RankTail(table, owner, |table|);
      assert col == (if lead == 1 then [table[0].hash] + rest else rest);
      forall i | 0 <= i < |table| ensures AtRank(table, owner, col, i) {
        if i > 0 {
          AtRankShift(table, owner, col, rest, i);
        }
      }
    }
  }

  /** Ranks in the table are ranks in its tail, shifted by the first row. */
  lemma AtRankShift(table: Table, owner: string, col: seq<Option<string>>,
                    rest: seq<Option<string>>, i: nat)
    requires 0 < i < |table|
    requires col == (if table[0].ownerGuid == owner then [table[0].hash] + rest else rest)
    requires AtRank(table[1..], owner, rest, i - 1)
    ensures AtRank(table, owner, col, i)
  {
    RankTail(table, owner, i);
    assert table[1..][i - 1] == table[i];
  }

  /** The multi-row extractor: positioned on row `cursor` of the result set, it
      takes that row's hash and keeps stepping to the next row until none is left. */
  function CollectHashes(resultSet: seq<Option<string>>, cursor: nat): (hashes: seq<Option<string>>)
    requires cursor < |resultSet|
    ensures hashes == resultSet[cursor..]
    decreases |resultSet| - cursor
  {
    var here := [resultSet[cursor]];
    if cursor + 1 < |resultSet| then here + CollectHashes(resultSet, cursor + 1) else here
  }

  /** The owner-hash query run through the statement wrapper: null when no row
      matches, otherwise the extractor's list, started on the first row. */
  function OwnerHashes(table: Table, owner: string): (r: Option<seq<Option<string>>>)
    ensures r.None? <==> forall row :: row in table ==> row.ownerGuid != owner
    ensures r.Some? ==> r.value == OwnedHashColumn(table, owner)
  {
    var resultSet := OwnedHashColumn(table, owner);
    if |resultSet| == 0 then None else Some(CollectHashes(resultSet, 0))
  }

  /** The padded hashes of the present entries of `hashes`. */
  ghost function PaddedSet(hashes: seq<Option<string>>): set<string>
  {
    set i | 0 <= i < |hashes| && hashes[i].Some? :: Padded(hashes[i].value)
  }

  /** The loop that adds the padded form of each hash to a hash set; a null hash
      throws when it is padded. */
  function AddPadded(acc: set<string>, hashes: seq<Option<string>>): (r: Outcome<set<string>>)
    ensures r.Returned? <==> AllPresent(hashes)
    ensures r.Returned? ==> r.value == acc + PaddedSet(hashes)
    ensures r.Returned? ==> |r.value| <= |acc| + |hashes|
    ensures r.Threw? ==> r.exception == NullPointer
    decreases |hashes|
  {
    if |hashes| == 0 then Returned(acc)
    else match hashes[0]
      case None => Threw(NullPointer)
      case Some(h) =>
        var r := AddPadded(acc + {Padded(h)}, hashes[1..]);
        assert r.Returned? ==> r.value == acc + PaddedSet(hashes) by {
          if r.Returned? {
            PaddedSetCons(hashes);
          }
        }
        r
  }

  lemma PaddedSetCons(hashes: seq<Option<string>>)
    requires |hashes| > 0 && hashes[0].Some?
    ensures PaddedSet(hashes) == {Padded(hashes[0].value)} + PaddedSet(hashes[1..])
  {
  }

  /** Every resource row the note owns has a hash (no SQL NULL in the column). */
  predicate OwnedHashesPresent(table: Table, owner: string)
  {
    forall row :: row in table && row.ownerGuid == owner ==> row.hash.Some?
  }

  /** No resource row is owned by the note. */
  predicate OwnsNothing(table: Table, owner: string)
  {
    forall row :: row in table ==> row.ownerGuid != owner
  }

  predicate AllPresent(hashes: seq<Option<string>>)
  {
    forall i :: 0 <= i < |hashes| ==> hashes[i].Some?
  }

  /** Reference definition: the padded hash of every resource row the note owns. */
  ghost function OwnedPaddedHashes(table: Table, owner: string): set<string>
  {
    set row | row in table && row.ownerGuid == owner && row.hash.Some? :: Padded(row.hash.value)
  }

  /** The de-duplicated, padded hashes of the resources a note owns; an empty
      collection, never null, when the note owns none. */
  function GetResources(table: Table, owner: string): (r: Outcome<set<string>>)
    ensures OwnsNothing(table, owner) ==> r == Returned({})
    ensures r.Returned? <==> OwnedHashesPresent(table, owner)
    ensures r.Returned? ==> r.value == OwnedPaddedHashes(table, owner)
    ensures r.Returned? ==> |r.value| <= |OwnedHashColumn(table, owner)|
    ensures r.Threw? ==> r.exception == NullPointer
  {
    match OwnerHashes(table, owner)
    case None =>
      NoOwnedRows(table, owner);
      Returned({})
    case Some(hashes) =>
      ColumnPresence(table, owner, hashes);
      ColumnPaddedSet(table, owner, hashes);
      var r := AddPadded({}, hashes);
      assert r.Returned? <==> AllPresent(hashes);
      assert r.Returned? ==> r.value == PaddedSet(hashes);
      r
  }

  lemma NoOwnedRows(table: Table, owner: string)
    requires OwnsNothing(table, owner)
    ensures OwnedPaddedHashes(table, owner) == {}
    ensures OwnedHashesPresent(table, owner)
  {
  }

  /** Every entry of the owned hash column is present exactly when every owned row has a hash. */
  lemma ColumnPresence(table: Table, owner: string, col: seq<Option<string>>)
    requires col == OwnedHashColumn(table, owner)
    ensures AllPresent(col) <==> OwnedHashesPresent(table, owner)
  {
  }

  /** Padding the owned hash column gives the reference set. */
  lemma ColumnPaddedSet(table: Table, owner: string, col: seq<Option<string>>)
    requires col == OwnedHashColumn(table, owner)
    ensures PaddedSet(col) == OwnedPaddedHashes(table, owner)
  {
  }

  /** Every hash in a note's resource set is already normalised: at least 32
      characters, and padding it again changes nothing. */
  lemma ResourcesAreNormalised(table: Table, owner: string)
    ensures var r := GetResources(table, owner);
            r.Returned? ==> forall h :: h in r.value ==> |h| >= HashLength && Padded(h) == h
  {
  }

  /** The hash of a resource, read on its own, is among the hashes of the note
      that owns it. */
  lemma DataHashAmongOwnerResources(table: Table, resGuid: string, row: ResourceRow)
    requires RowWithGuid(table, resGuid) == Some(row)
    ensures var hash, owned := GetDataHash(table, resGuid), GetResources(table, row.ownerGuid);
            hash.Returned? && owned.Returned? ==> hash.value in owned.value
  {
  }

  /** A legacy hash and its padded form, both owned by one note, collapse into
      a single entry of the note's resource set. */
  lemma LegacyAndPaddedCollapse()
    ensures var table := [ResourceRow("r1", "n", Some("abc123")),
                          ResourceRow("r2", "n", Some("00000000000000000000000000abc123"))];
            GetResources(table, "n") == Returned({"00000000000000000000000000abc123"})
  {
    var table := [ResourceRow("r1", "n", Some("abc123")),
                  ResourceRow("r2", "n", Some("00000000000000000000000000abc123"))];
    PaddedExample();
    assert OwnedPaddedHashes(table, "n") == {"00000000000000000000000000abc123"};
  }
}
