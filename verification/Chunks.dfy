/** Compressed rows stored as numbered chunks, with stale chunks left behind by shorter rewrites. */
module Chunks {
  import opened Common
  import opened Decimal

  type Bytes = seq<int>

  const PART := "NamedListData_part_"
  const CHUNK_SIZE := 64 * 1024

  function PartName(i: nat): string { PART + Itoa(i) }

  lemma PartNamesSpelled(i: nat)
    ensures PartName(i) == "NamedListData_part_" + Itoa(i)
  {
  }

  lemma PartNamesDiffer(i: nat, j: nat)
    ensures PartName(i) == PartName(j) ==> i == j
  {
    if PartName(i) == PartName(j) {
      assert PartName(i)[|PART|..] == Itoa(i) && PartName(j)[|PART|..] == Itoa(j);
      ItoaInjective(i, j);
    }
  }

  // ---- Chunks of one value ----

  function Concat(chunks: seq<Bytes>): Bytes {
    if chunks == [] then [] else Concat(chunks[..|chunks| - 1]) + chunks[|chunks| - 1]
  }

  /** Non-empty chunks, all of the full size but the last. */
  ghost predicate ProperChunks(chunks: seq<Bytes>, size: nat) {
    (forall i | 0 <= i < |chunks| :: 0 < |chunks[i]| <= size) &&
    (forall i | 0 <= i < |chunks| - 1 :: |chunks[i]| == size)
  }

  method Split(data: Bytes, size: nat) returns (chunks: seq<Bytes>)
    requires size > 0
    ensures Concat(chunks) == data && ProperChunks(chunks, size)
  {
    chunks := [];
    var i := 0;
    while i < |data|
      invariant 0 <= i
      invariant Concat(chunks) == data[..if i < |data| then i else |data|]
      invariant forall k | 0 <= k < |chunks| :: 0 < |chunks[k]| <= size
      invariant forall k | 0 <= k < |chunks| - 1 :: |chunks[k]| == size
      invariant i < |data| ==> forall k | 0 <= k < |chunks| :: |chunks[k]| == size
      decreases |data| - i
    {
      var end := if i + size > |data| then |data| else i + size;
      ghost var before := chunks;
      chunks := chunks + [data[i..end]];
      assert chunks[..|chunks| - 1] == before;
      assert data[..i] + data[i..end] == data[..end];
      i := i + size;
    }
    assert data[..|data|] == data;
  }

  // ---- One row ----

  /** The columns of one key: the part count, stored under a name of its own, and the parts by name. */
  datatype Row = Row(count: Option<nat>, parts: map<string, Bytes>)

  /** The parts 0 to n - 1 put together; a missing one adds nothing. */
  function Join(parts: map<string, Bytes>, n: nat): Bytes {
    if n == 0 then [] else
      Join(parts, n - 1) + if PartName(n - 1) in parts then parts[PartName(n - 1)] else []
  }

  predicate HasParts(parts: map<string, Bytes>, n: nat) {
    forall i | 0 <= i < n :: PartName(i) in parts
  }

  /** The row was last written as these chunks, and never with more than high of them. */
  ghost predicate RowHolds(row: Row, chunks: seq<Bytes>, high: nat) {
    |chunks| <= high && row.count == Some(|chunks|) &&
    row.parts.Keys == PartNames(high) &&
    (forall c | c in row.parts :: row.parts[c] != []) &&
    (forall i | 0 <= i < |chunks| :: PartName(i) in row.parts && row.parts[PartName(i)] == chunks[i])
  }

  function PartNames(n: nat): set<string> {
    set i | 0 <= i < n :: PartName(i)
  }

  lemma {:induction false} PartNamesSize(n: nat)
    ensures |PartNames(n)| == n
  {
    if n > 0 {
      PartNamesSize(n - 1);
      assert PartNames(n) == PartNames(n - 1) + {PartName(n - 1)};
      if PartName(n - 1) in PartNames(n - 1) {
        var i :| 0 <= i < n - 1 && PartName(i) == PartName(n - 1);
        PartNamesDiffer(i, n - 1);
      }
    }
  }

  lemma {:induction false} JoinOfChunks(parts: map<string, Bytes>, chunks: seq<Bytes>)
    requires forall i | 0 <= i < |chunks| :: PartName(i) in parts && parts[PartName(i)] == chunks[i]
    ensures Join(parts, |chunks|) == Concat(chunks)
  {
    if chunks != [] { JoinOfChunks(parts, chunks[..|chunks| - 1]); }
  }

  /** The chunks are the parts 0, 1 and so on, in that order. */
  ghost predicate IsParts(parts: map<string, Bytes>, chunks: seq<Bytes>) {
    forall i | 0 <= i < |chunks| :: PartName(i) in parts && parts[PartName(i)] == chunks[i]
  }

  /** An error without a count or with one of its parts missing, and otherwise all of them put together. */
  ghost predicate ReadsAs(row: Row, r: Option<Bytes>) {
    match r
    case None => row.count.None? || exists i :: 0 <= i < row.count.value && PartName(i) !in row.parts
    case Some(data) => row.count.Some? && exists chunks :: IsParts(row.parts, chunks) && |chunks| == row.count.value && data == Concat(chunks)
  }

  function Read(row: Row): Option<Bytes> {
    if row.count.Some? && HasParts(row.parts, row.count.value) then Some(Join(row.parts, row.count.value)) else None
  }

  lemma ReadIsExact(row: Row)
    ensures ReadsAs(row, Read(row))
  {
    if row.count.Some? && HasParts(row.parts, row.count.value) {
      var n := row.count.value;
      var chunks := seq(n, i requires 0 <= i < n => row.parts[PartName(i)]);
      JoinOfChunks(row.parts, chunks);
      assert IsParts(row.parts, chunks);
    }
  }

  /** A row last written as some chunks is read back as exactly their concatenation, whatever stale parts follow. */
  lemma RowReadsBack(row: Row, chunks: seq<Bytes>, high: nat)
    requires RowHolds(row, chunks, high)
    ensures HasParts(row.parts, |chunks|) && Join(row.parts, |chunks|) == Concat(chunks)
  {
    JoinOfChunks(row.parts, chunks);
  }

  /** The logged batch: the count, then part after part, over whatever the row held. */
  method SetXconfCompressedData(row: Row, values: seq<Bytes>, ghost high: nat)
    returns (r: Row)
    requires row.parts.Keys == PartNames(high)
    requires forall c | c in row.parts :: row.parts[c] != []
    requires forall i | 0 <= i < |values| :: values[i] != []
    ensures RowHolds(r, values, if high > |values| then high else |values|)
    ensures forall i | |values| <= i < high :: PartName(i) in r.parts && r.parts[PartName(i)] == row.parts[PartName(i)]
  {
    r := row.(count := Some(|values|));
    for i := 0 to |values|
      invariant r.count == Some(|values|)
      invariant r.parts.Keys == PartNames(if high > i then high else i)
      invariant forall c | c in r.parts :: r.parts[c] != []
      invariant forall k | 0 <= k < i :: r.parts[PartName(k)] == values[k]
      invariant forall k | i <= k < high :: r.parts[PartName(k)] == row.parts[PartName(k)]
    {
      forall k: nat ensures PartName(k) == PartName(i) ==> k == i { PartNamesDiffer(k, i); }
      ghost var before := if high > i then high else i;
      ghost var after := if high > i + 1 then high else i + 1;
      assert PartNames(after) == PartNames(before) + {PartName(i)};
      r := r.(parts := r.parts[PartName(i) := values[i]]);
    }
  }

  /** Data exactly when the count and all the parts below it are there. */
  method GetXconfCompressedData(row: Row) returns (r: Option<Bytes>)
    ensures r == Read(row)
  {
    if row.count.None? { return None; }
    var partsCount := row.count.value;
    if partsCount > |row.parts| {
      if HasParts(row.parts, partsCount) { EnoughParts(row.parts, partsCount); }
      return None;
    }
    var data: Bytes := [];
    for i := 0 to partsCount
      invariant HasParts(row.parts, i) && data == Join(row.parts, i)
    {
      if PartName(i) !in row.parts { return None; }
      data := data + row.parts[PartName(i)];
    }
    r := Some(data);
  }

  lemma EnoughParts(parts: map<string, Bytes>, n: nat)
    requires HasParts(parts, n)
    ensures n <= |parts|
  {
    PartNamesSize(n);
    Subset(PartNames(n), parts.Keys);
  }

  lemma {:induction false} Subset<T>(a: set<T>, b: set<T>)
    requires a <= b
    ensures |a| <= |b|
    ensures |a| == |b| ==> a == b
  {
    if a != {} {
      var x :| x in a;
      Subset(a - {x}, b - {x});
    }
  }

  // ---- The table refines a map of keys to data ----

  /** The data last written for each key. */
  ghost function Contained(latest: map<string, seq<Bytes>>): map<string, Bytes> {
    map k | k in latest :: Concat(latest[k])
  }

  lemma ContainedUpdate(latest: map<string, seq<Bytes>>, key: string, values: seq<Bytes>)
    ensures Contained(latest[key := values]) == Contained(latest)[key := Concat(values)]
  {
  }

  lemma ContainedRemove(latest: map<string, seq<Bytes>>, key: string)
    ensures Contained(latest - {key}) == Contained(latest) - {key}
  {
  }

  /** How many parts the row has once n are written over it. */
  ghost function Highest(high: map<string, nat>, key: string, n: nat): nat {
    if key in high && high[key] > n then high[key] else n
  }

  class CompressedTable {
    var rows: map<string, Row>
    ghost var latest: map<string, seq<Bytes>>
    ghost var high: map<string, nat>

    ghost predicate Valid()
      reads this
    {
      rows.Keys == latest.Keys == high.Keys &&
      forall k | k in rows :: RowHolds(rows[k], latest[k], high[k])
    }

    ghost function Contents(): map<string, Bytes>
      reads this
    {
      Contained(latest)
    }

    constructor ()
      ensures Valid() && Contents() == map[]
    {
      rows, latest, high := map[], map[], map[];
    }

    method SetOne(key: string, data: Bytes)
      requires Valid()
      modifies this
      ensures Valid() && key in latest && Contents() == old(Contents())[key := data]
      ensures high == old(high)[key := Highest(old(high), key, |latest[key]|)]
      ensures latest == old(latest)[key := latest[key]] && Concat(latest[key]) == data && ProperChunks(latest[key], 65536)
    {
      var values := Split(data, CHUNK_SIZE);
      var row := if key in rows then rows[key] else Row(None, map[]);
      row := SetXconfCompressedData(row, values, Highest(high, key, 0));
      ContainedUpdate(latest, key, values);
      rows := rows[key := row];
      high := high[key := Highest(high, key, |values|)];
      latest := latest[key := values];
    }

    method DeleteOne(key: string)
      requires Valid()
      modifies this
      ensures Valid() && Contents() == old(Contents()) - {key}
      ensures rows == old(rows) - {key} && latest == old(latest) - {key} && high == old(high) - {key}
    {
      ContainedRemove(latest, key);
      rows := rows - {key};
      latest := latest - {key};
      high := high - {key};
    }

    /** Exactly the last data written, whatever stale parts remain. */
    method GetOne(key: string) returns (r: Option<Bytes>)
      requires Valid()
      ensures r == if key in Contents() then Some(Contents()[key]) else None
    {
      if key !in rows { return None; }
      RowReadsBack(rows[key], latest[key], high[key]);
      r := GetXconfCompressedData(rows[key]);
    }

    /** Every key with a part column, each right exactly when none of its stale parts sorts before a current one. */
    method GetAllAsMap(cells: seq<Cell>) returns (r: map<string, Bytes>)
      requires Valid() && IsScan(rows, cells)
      ensures forall k :: k in r <==> k in high && high[k] > 0
      ensures forall k | k in r :: r[k] == Contents()[k] <==> !StaleFirst(|latest[k]|, high[k])
    {
      r := GetAllXconfCompressedDataAsMap(rows, cells);
      TableReadAgrees(rows, latest, high, cells);
    }
  }

  // ---- Reading the whole table ----

  datatype Cell = Cell(key: string, column: string, value: Bytes)

  /** Some cell among the first n belongs to the key. */
  ghost predicate Mentioned(cells: seq<Cell>, n: nat, key: string)
    requires n <= |cells|
  {
    exists i | 0 <= i < n :: cells[i].key == key
  }

  /** What the scan keeps of one key from the first n cells: those that come while fewer than count are kept. */
  function Kept(cells: seq<Cell>, n: nat, key: string, count: nat): map<string, Bytes>
    requires n <= |cells|
  {
    if n == 0 then map[] else
      var kept := Kept(cells, n - 1, key, count);
      var last := cells[n - 1];
      if last.key == key && |kept| < count then kept[last.column := last.value] else kept
  }

  function Count(rows: map<string, Row>, key: string): nat {
    if key in rows && rows[key].count.Some? then rows[key].count.value else 0
  }

  method GetXconfCompressedDataRaw(rows: map<string, Row>, cells: seq<Cell>)
    returns (r: map<string, map<string, Bytes>>)
    ensures forall k :: k in r <==> Mentioned(cells, |cells|, k)
    ensures forall k | k in r ::
      r[k] == Kept(cells, |cells|, k, if k in rows && rows[k].count.Some? then rows[k].count.value else 0)
  {
    r := map[];
    for i := 0 to |cells|
      invariant forall k :: k in r <==> Mentioned(cells, i, k)
      invariant forall k | k in r :: r[k] == Kept(cells, i, k, Count(rows, k))
    {
      var cell := cells[i];
      if cell.key !in r { NothingKept(cells, i, cell.key, Count(rows, cell.key)); }
      var parts := if cell.key in r then r[cell.key] else map[];
      if |parts| < Count(rows, cell.key) { parts := parts[cell.column := cell.value]; }
      r := r[cell.key := parts];
    }
  }

  /** Never more than the count. */
  lemma {:induction false} KeptIsSmall(cells: seq<Cell>, n: nat, key: string, count: nat)
    requires n <= |cells|
    ensures |Kept(cells, n, key, count)| <= count
  {
    if n > 0 { KeptIsSmall(cells, n - 1, key, count); }
  }

  lemma {:induction false} NothingKept(cells: seq<Cell>, n: nat, key: string, count: nat)
    requires n <= |cells| && !Mentioned(cells, n, key)
    ensures Kept(cells, n, key, count) == map[]
  {
    if n > 0 { NothingKept(cells, n - 1, key, count); }
  }

  /** What the bulk read puts together for one key. */
  function Bulk(cells: seq<Cell>, key: string, count: nat): Bytes {
    var kept := Kept(cells, |cells|, key, count);
    Join(kept, |kept|)
  }

  method GetAllXconfCompressedDataAsMap(rows: map<string, Row>, cells: seq<Cell>) returns (r: map<string, Bytes>)
    ensures forall k :: k in r <==> Mentioned(cells, |cells|, k)
    ensures forall k | k in r :: r[k] == Bulk(cells, k, Count(rows, k))
  {
    var raw := GetXconfCompressedDataRaw(rows, cells);
    r := map[];
    var keys := raw.Keys;
    while keys != {}
      invariant forall k :: k in keys ==> k in raw
      invariant forall k :: k in raw ==> k in keys || k in r
      invariant forall k :: k in r ==> k in raw
      invariant forall k | k in r :: r[k] == Bulk(cells, k, Count(rows, k))
      decreases |keys|
    {
      var key :| key in keys;
      var data := JoinParts(raw[key]);
      assert data == Bulk(cells, key, Count(rows, key));
      r := r[key := data];
      keys := keys - {key};
    }
  }

  method JoinParts(parts: map<string, Bytes>) returns (data: Bytes)
    ensures data == Join(parts, |parts|)
  {
    data := [];
    for i := 0 to |parts|
      invariant data == Join(parts, i)
    {
      data := data + if PartName(i) in parts then parts[PartName(i)] else [];
    }
  }

  // ---- When the bulk read agrees ----

  /** The cells of the key are the row's parts, in the text order of their names (the clustering order). */
  ghost predicate ScansRow(cells: seq<Cell>, key: string, parts: map<string, Bytes>) {
    (forall i | 0 <= i < |cells| && cells[i].key == key ::
      cells[i].column in parts && cells[i].value == parts[cells[i].column]) &&
    (forall c | c in parts :: exists i :: 0 <= i < |cells| && cells[i].key == key && cells[i].column == c) &&
    (forall i, j | 0 <= i < j < |cells| && cells[i].key == key && cells[j].key == key ::
      TextLess(cells[i].column, cells[j].column))
  }

  /** A scan of the whole table. */
  ghost predicate IsScan(rows: map<string, Row>, cells: seq<Cell>) {
    (forall i | 0 <= i < |cells| :: cells[i].key in rows) &&
    (forall k | k in rows :: ScansRow(cells, k, rows[k].parts))
  }

  /** kept is made of the count parts whose names come first, or of all when there are no more. */
  ghost predicate KeepsFirst(kept: map<string, Bytes>, parts: map<string, Bytes>, count: nat) {
    (forall c | c in kept :: c in parts && kept[c] == parts[c]) &&
    |kept| == (if count < |parts| then count else |parts|) &&
    (forall c, d | c in kept && d in parts && d !in kept :: TextLess(c, d))
  }

  /** All the parts of the key among the first n cells. */
  ghost function Scanned(cells: seq<Cell>, n: nat, key: string): map<string, Bytes>
    requires n <= |cells|
  {
    if n == 0 then map[]
    else if cells[n - 1].key == key then Scanned(cells, n - 1, key)[cells[n - 1].column := cells[n - 1].value]
    else Scanned(cells, n - 1, key)
  }

  lemma {:induction false} ScannedColumns(cells: seq<Cell>, n: nat, key: string, parts: map<string, Bytes>)
    requires n <= |cells| && ScansRow(cells, key, parts)
    ensures forall c :: c in Scanned(cells, n, key) <==> exists i :: 0 <= i < n && cells[i].key == key && cells[i].column == c
    ensures forall c | c in Scanned(cells, n, key) :: c in parts && Scanned(cells, n, key)[c] == parts[c]
  {
    if n > 0 { ScannedColumns(cells, n - 1, key, parts); }
  }

  lemma ScannedAll(cells: seq<Cell>, key: string, parts: map<string, Bytes>)
    requires ScansRow(cells, key, parts)
    ensures Scanned(cells, |cells|, key) == parts
  {
    ScannedColumns(cells, |cells|, key, parts);
    assert Scanned(cells, |cells|, key).Keys == parts.Keys;
  }

  lemma {:induction false} ScanKeepsFirst(cells: seq<Cell>, n: nat, key: string, count: nat, parts: map<string, Bytes>)
    requires n <= |cells| && ScansRow(cells, key, parts)
    ensures KeepsFirst(Kept(cells, n, key, count), Scanned(cells, n, key), count)
  {
    if n > 0 {
      ScanKeepsFirst(cells, n - 1, key, count, parts);
      if cells[n - 1].key == key {
        ComesLast(cells, n - 1, key, parts);
        KeepOneMore(Kept(cells, n - 1, key, count), Scanned(cells, n - 1, key), count, cells[n - 1]);
      }
    }
  }

  lemma ComesLast(cells: seq<Cell>, n: nat, key: string, parts: map<string, Bytes>)
    requires n < |cells| && ScansRow(cells, key, parts) && cells[n].key == key
    ensures forall c | c in Scanned(cells, n, key) :: TextLess(c, cells[n].column)
  {
    ScannedColumns(cells, n, key, parts);
  }

  lemma KeepOneMore(kept: map<string, Bytes>, parts: map<string, Bytes>, count: nat, last: Cell)
    requires KeepsFirst(kept, parts, count)
    requires forall c | c in parts :: TextLess(c, last.column)
    ensures KeepsFirst(if |kept| < count then kept[last.column := last.value] else kept,
      parts[last.column := last.value], count)
  {
    assert last.column !in parts;
    if |kept| < count {
      Subset(kept.Keys, parts.Keys);
      assert |kept.Keys| == |kept| && |parts.Keys| == |parts|;
    }
  }

  /** Some stale part's name comes before some current part's name. */
  ghost predicate StaleFirst(count: nat, high: nat) {
    exists a, b :: 0 <= a < count <= b < high && TextLess(Itoa(b), Itoa(a))
  }

  lemma PartOrder(a: nat, b: nat)
    ensures TextLess(PartName(a), PartName(b)) <==> TextLess(Itoa(a), Itoa(b))
    ensures !(TextLess(PartName(a), PartName(b)) && TextLess(PartName(b), PartName(a)))
  {
    TextCommonPrefix(PART, Itoa(a), Itoa(b));
    PartNamesDiffer(a, b);
    if TextLess(PartName(a), PartName(b)) && TextLess(PartName(b), PartName(a)) {
      TextAntisymmetric(PartName(a), PartName(b));
    }
  }

  /** Of a row's first count parts by name, one numbered below count is missing exactly when a stale part comes first. */
  lemma FirstPartsAreCurrent(kept: map<string, Bytes>, parts: map<string, Bytes>, count: nat, high: nat)
    requires parts.Keys == PartNames(high) && count <= high && KeepsFirst(kept, parts, count)
    ensures |kept| == count
    ensures HasParts(kept, count) <==> !StaleFirst(count, high)
  {
    PartNamesSize(high);
    PartNamesSize(count);
    assert |parts.Keys| == |parts| && |kept.Keys| == |kept|;
    if HasParts(kept, count) {
      Subset(PartNames(count), kept.Keys);
      forall a, b | 0 <= a < count <= b < high ensures !TextLess(Itoa(b), Itoa(a)) {
        PartOrder(b, a);
        PartOrder(a, b);
        forall i | 0 <= i < count ensures PartName(i) != PartName(b) { PartNamesDiffer(i, b); }
        assert PartName(b) !in kept.Keys;
        assert PartName(b) in parts.Keys;
      }
    } else {
      var a :| 0 <= a < count && PartName(a) !in kept;
      assert PartName(a) in parts.Keys && PartName(a) in PartNames(count);
      if kept.Keys <= PartNames(count) { Subset(kept.Keys, PartNames(count)); }
      var name :| name in kept && name !in PartNames(count);
      var b :| 0 <= b < high && PartName(b) == name;
      PartOrder(b, a);
    }
  }

  lemma {:induction false} JoinOfSame(kept: map<string, Bytes>, parts: map<string, Bytes>, n: nat)
    requires HasParts(kept, n) && forall c | c in kept :: c in parts && kept[c] == parts[c]
    ensures Join(kept, n) == Join(parts, n)
  {
    if n > 0 { JoinOfSame(kept, parts, n - 1); }
  }

  lemma {:induction false} JoinOfFewer(kept: map<string, Bytes>, parts: map<string, Bytes>, n: nat, missing: nat)
    requires forall c | c in kept :: c in parts && kept[c] == parts[c]
    requires PartName(missing) !in kept && PartName(missing) in parts && parts[PartName(missing)] != []
    ensures |Join(kept, n)| <= |Join(parts, n)| - if missing < n then 1 else 0
  {
    if n > 0 {
      JoinOfFewer(kept, parts, n - 1, missing);
      var last := PartName(n - 1);
      var a, b := if last in kept then kept[last] else [], if last in parts then parts[last] else [];
      assert |a| <= |b| - if missing == n - 1 then 1 else 0;
      assert Join(kept, n) == Join(kept, n - 1) + a && Join(parts, n) == Join(parts, n - 1) + b;
    }
  }

  /** The bulk read of a row gives the last data written exactly when no stale part's name comes too early. */
  lemma BulkReadAgrees(cells: seq<Cell>, key: string, row: Row, chunks: seq<Bytes>, high: nat)
    requires RowHolds(row, chunks, high) && ScansRow(cells, key, row.parts)
    ensures Bulk(cells, key, |chunks|) == Concat(chunks) <==> !StaleFirst(|chunks|, high)
  {
    var kept := Kept(cells, |cells|, key, |chunks|);
    ScanKeepsFirst(cells, |cells|, key, |chunks|, row.parts);
    ScannedAll(cells, key, row.parts);
    FirstPartsAreCurrent(kept, row.parts, |chunks|, high);
    RowReadsBack(row, chunks, high);
    if HasParts(kept, |chunks|) {
      JoinOfSame(kept, row.parts, |chunks|);
    } else {
      var missing :| 0 <= missing < |chunks| && PartName(missing) !in kept;
      JoinOfFewer(kept, row.parts, |chunks|, missing);
    }
  }

  lemma MentionedIffParts(cells: seq<Cell>, key: string, row: Row, chunks: seq<Bytes>, high: nat)
    requires RowHolds(row, chunks, high) && ScansRow(cells, key, row.parts)
    ensures Mentioned(cells, |cells|, key) <==> high > 0
  {
    if high > 0 {
      assert PartName(0) in row.parts.Keys;
    }
  }

  lemma TableReadAgrees(rows: map<string, Row>, latest: map<string, seq<Bytes>>, high: map<string, nat>, cells: seq<Cell>)
    requires rows.Keys == latest.Keys == high.Keys && IsScan(rows, cells)
    requires forall k | k in rows :: RowHolds(rows[k], latest[k], high[k])
    ensures forall k :: Mentioned(cells, |cells|, k) <==> k in high && high[k] > 0
    ensures forall k | k in rows ::
      Bulk(cells, k, Count(rows, k)) == Contained(latest)[k] <==> !StaleFirst(|latest[k]|, high[k])
  {
    forall k ensures Mentioned(cells, |cells|, k) <==> k in high && high[k] > 0 {
      if k in rows { MentionedIffParts(cells, k, rows[k], latest[k], high[k]); }
    }
    forall k | k in rows
      ensures Bulk(cells, k, Count(rows, k)) == Contained(latest)[k] <==> !StaleFirst(|latest[k]|, high[k])
    {
      BulkReadAgrees(cells, k, rows[k], latest[k], high[k]);
    }
  }

  // ---- Which counts of parts are safe ----

  /** The least power of ten, from ten on, that is greater. */
  function Limit(n: nat): nat {
    if n < 10 then 10 else 10 * Limit(n / 10)
  }

  lemma {:induction false} LimitBounds(n: nat)
    ensures n < Limit(n) && Limit(n) % 10 == 0 && (n >= 10 ==> Limit(n) / 10 <= n)
  {
    if n >= 10 { LimitBounds(n / 10); }
  }

  /** Numbers up to the limit have as many digits. */
  lemma {:induction false} SameLimit(m: nat, n: nat)
    requires m <= n < Limit(m)
    ensures Limit(n) == Limit(m) && |Itoa(n)| == |Itoa(m)|
  {
    if m >= 10 { SameLimit(m / 10, n / 10); }
  }

  lemma {:induction false} MoreDigits(m: nat, n: nat)
    requires m <= n
    ensures |Itoa(m)| <= |Itoa(n)|
  {
    if m >= 10 { MoreDigits(m / 10, n / 10); } else { ItoaNonEmpty(n); }
  }

  /** A difference in front decides, whatever follows. */
  lemma {:induction false} DifferenceDecides(p: string, q: string, x: string, y: string)
    requires |p| == |q| && TextLess(p, q)
    ensures TextLess(p + x, q + y)
  {
    assert (p + x)[0] == p[0] && (q + y)[0] == q[0];
    assert (p + x)[1..] == p[1..] + x && (q + y)[1..] == q[1..] + y;
    if p[0] == q[0] {
      assert p == [p[0]] + p[1..] && q == [q[0]] + q[1..];
      DifferenceDecides(p[1..], q[1..], x, y);
    }
  }

  /** Among equally long numbers the text order is the numbers'. */
  lemma {:induction false} SameLengthOrder(m: nat, n: nat)
    requires m < n && |Itoa(m)| == |Itoa(n)|
    ensures TextLess(Itoa(m), Itoa(n))
  {
    ItoaNonEmpty(m / 10);
    ItoaNonEmpty(n / 10);
    DigitOrder(m % 10, n % 10);
    if m < 10 {
      DigitOrder(m, n);
    } else if m / 10 < n / 10 {
      SameLengthOrder(m / 10, n / 10);
      DifferenceDecides(Itoa(m / 10), Itoa(n / 10), [Digit(m % 10)], [Digit(n % 10)]);
    } else {
      TextCommonPrefix(Itoa(m / 10), [Digit(m % 10)], [Digit(n % 10)]);
      ItoaUnequal(m, n);
    }
  }

  lemma ItoaUnequal(m: nat, n: nat)
    requires m != n
    ensures Itoa(m) != Itoa(n)
  {
    if Itoa(m) == Itoa(n) { ItoaInjective(m, n); }
  }

  lemma {:induction false} AllDigits(n: nat)
    ensures forall c | c in Itoa(n) :: c <= '9'
  {
    if n >= 10 { AllDigits(n / 10); }
  }

  /** The last ten numbers below the limit begin with nines. */
  lemma {:induction false} LastTen(n: nat)
    requires Limit(n) - 10 <= n
    ensures forall i | 0 <= i < |Itoa(n)| - 1 :: Itoa(n)[i] == '9'
    ensures n == Limit(n) - 1 ==> forall i | 0 <= i < |Itoa(n)| :: Itoa(n)[i] == '9'
  {
    LimitBounds(n);
    if n >= 10 {
      LimitBounds(n / 10);
      LastTen(n / 10);
    }
  }

  lemma {:induction false} NinesAreLast(s: string, t: string)
    requires |s| <= |t| && forall i | 0 <= i < |s| :: s[i] <= '9' == t[i]
    ensures TextLeq(s, t)
  {
    if s != [] { NinesAreLast(s[1..], t[1..]); }
  }

  /** So they come after every smaller number. */
  lemma LastTenComeLast(a: nat, b: nat)
    requires a < b && Limit(b) - 10 <= b
    ensures !TextLess(Itoa(b), Itoa(a))
  {
    MoreDigits(a, b);
    if |Itoa(a)| == |Itoa(b)| {
      SameLengthOrder(a, b);
    } else {
      AllDigits(a);
      LastTen(b);
      forall i | 0 <= i < |Itoa(a)| ensures Itoa(a)[i] <= '9' == Itoa(b)[i] { assert Itoa(a)[i] in Itoa(a); }
      NinesAreLast(Itoa(a), Itoa(b));
    }
    if TextLeq(Itoa(b), Itoa(a)) { TextAntisymmetric(Itoa(b), Itoa(a)); }
  }

  /** Any other number with more than one digit comes before the nines with one digit less. */
  lemma NinesComeLater(b: nat)
    requires 10 <= b < Limit(b) - 10
    ensures Limit(b) / 10 - 1 < b && TextLess(Itoa(b), Itoa(Limit(b) / 10 - 1))
  {
    var nines := Limit(b / 10) - 1;
    LimitBounds(b);
    SameLimit(b / 10, nines);
    SameLengthOrder(b / 10, nines);
    DifferenceDecides(Itoa(b / 10), Itoa(nines), [Digit(b % 10)], []);
    assert Itoa(nines) + [] == Itoa(nines);
  }

  /** The limit itself is a one followed by zeros. */
  lemma {:induction false} LimitStartsWithOne(n: nat)
    ensures Limit(n) >= 10 && |Itoa(Limit(n))| > 1 && Itoa(Limit(n))[0] == '1'
  {
    if n < 10 { assert Itoa(10) == Itoa(1) + [Digit(0)]; } else { LimitStartsWithOne(n / 10); }
  }

  /** No stale part comes first when there is none, with at most two current parts, and when the current parts reach
      into the last ten numbers below a power of ten that the stale ones do not pass. */
  predicate StaleLast(count: nat, high: nat) {
    high <= count || count <= 2 || (Limit(count) - 10 <= count && high <= Limit(count))
  }

  /** And in no other case: exactly for these counts of current and written parts the bulk read gives the last data. */
  lemma StaleFirstExactly(count: nat, high: nat)
    ensures StaleFirst(count, high) <==> !StaleLast(count, high)
  {
    if StaleLast(count, high) {
      forall a, b | 0 <= a < count <= b < high ensures !TextLess(Itoa(b), Itoa(a)) {
        if count <= 2 {
          OneComesFirst(a, b);
        } else {
          SameLimit(count, b);
          LastTenComeLast(a, b);
        }
      }
    } else {
      EarlyStalePart(count, high);
    }
  }

  lemma EarlyStalePart(count: nat, high: nat)
    requires !StaleLast(count, high)
    ensures StaleFirst(count, high)
  {
    LimitBounds(count);
    if Limit(count) < high {
      LimitStartsWithOne(count);
      assert Itoa(2) == "2";
      assert TextLess(Itoa(Limit(count)), Itoa(2));
    } else {
      NinesComeLater(count);
    }
  }

  lemma OneComesFirst(a: nat, b: nat)
    requires a <= 1 && a < b
    ensures !TextLess(Itoa(b), Itoa(a))
  {
    FirstDigit(b);
    assert Itoa(a) == [Digit(a)];
    if b < 10 {
      DigitOrder(b, a);
      assert Itoa(b) == [Digit(b)];
    } else {
      assert Digit(a) <= '1' && !TextLeq(Itoa(b)[1..], Itoa(a)[1..]);
    }
  }

  /** It does in particular when nothing is stale, with at most ten part columns, and with at most two current parts. */
  lemma SmallRowsAgree(count: nat, high: nat)
    requires high == count || high <= 10 || count <= 2
    ensures !StaleFirst(count, high)
  {
    StaleFirstExactly(count, high);
  }

  /** It does not with eleven part columns or more, three to ten of them current: part 10 sorts before part 2. */
  lemma ElevenColumnsDisagree(count: nat, high: nat)
    requires 3 <= count <= 10 < high
    ensures StaleFirst(count, high)
  {
    StaleFirstExactly(count, high);
  }
}
