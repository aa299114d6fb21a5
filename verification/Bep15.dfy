/** BEP 15 messages: the codec of `src/trackers/bep15.py`, against a tracker's side of it. */
module Bep15 {
  import opened Bytes
  import opened Text

  const PROTOCOL_ID := 0x41727101980
  const CONNECT := 0
  const SCRAPE := 2
  const ERROR := 3
  const INFOHASH_SIZE := 20

  const U32 := 0x1_0000_0000
  const U64 := 0x1_0000_0000_0000_0000

  function Pack32(n: nat): (bs: seq<byte>)
    requires n < U32
    ensures |bs| == 4 && FromBigEndian(bs) == n
  {
    Widths();
    UnpackPack(n, 4);
    ToBigEndian(n, 4)
  }

  function Pack64(n: nat): (bs: seq<byte>)
    requires n < U64
    ensures |bs| == 8 && FromBigEndian(bs) == n
  {
    Widths();
    UnpackPack(n, 8);
    ToBigEndian(n, 8)
  }

  /** A field of a received message. */
  function Field(data: seq<byte>, i: nat, width: nat): nat
    requires i + width <= |data|
  {
    FromBigEndian(data[i..i + width])
  }

  lemma {:induction false} FieldHeld(data: seq<byte>, i: nat, bs: seq<byte>)
    requires At(data, i, bs)
    ensures Field(data, i, |bs|) == FromBigEndian(bs)
  {
    AtSlice(data, i, i + |bs|, bs);
  }

  // ---- requests -------------------------------------------------------------------

  function ConnectRequest(txid: nat): (r: seq<byte>)
    requires txid < U32
    ensures |r| == 16
  {
    Pack64(PROTOCOL_ID) + (Pack32(CONNECT) + Pack32(txid))
  }

  /** Each field of a connect request stands where BEP 15 puts it, and nothing else does. */
  lemma {:induction false} ConnectRequestLayout(txid: nat)
    requires txid < U32
    ensures var q := ConnectRequest(txid);
            |q| == 16 && Field(q, 0, 8) == 0x417_2710_1980 && Field(q, 8, 4) == 0 && Field(q, 12, 4) == txid
  {
    var a, b, c := Pack64(PROTOCOL_ID), Pack32(CONNECT), Pack32(txid);
    hide Pack64, Pack32;
    var q := a + (b + c);
    AtSelf(q);
    AtParts3(q, 0, a, b, c);
    FieldHeld(q, 0, a);
    FieldHeld(q, 8, b);
    FieldHeld(q, 12, c);
  }

  predicate GoodHashes(hashes: seq<seq<byte>>) { forall h :: h in hashes ==> |h| == INFOHASH_SIZE }

  datatype Built = EmptyScrape | BadHash | Built(request: seq<byte>)

  function ScrapeBytes(connection: nat, txid: nat, hashes: seq<seq<byte>>): seq<byte>
    requires connection < U64 && txid < U32
  {
    Pack64(connection) + (Pack32(SCRAPE) + (Pack32(txid) + Concat(hashes)))
  }

  /** `build_scrape_request`, which checks every hash before it sends one. */
  method BuildScrapeRequest(connection: nat, txid: nat, hashes: seq<seq<byte>>) returns (r: Built)
    requires connection < U64 && txid < U32
    ensures r == if hashes == [] then EmptyScrape
                 else if !GoodHashes(hashes) then BadHash
                 else Built(ScrapeBytes(connection, txid, hashes))
  {
    if hashes == [] {
      return EmptyScrape;
    }
    for i := 0 to |hashes|
      invariant forall k :: 0 <= k < i ==> |hashes[k]| == INFOHASH_SIZE
    {
      if |hashes[i]| != INFOHASH_SIZE {
        return BadHash;
      }
    }
    return Built(ScrapeBytes(connection, txid, hashes));
  }

  lemma {:induction false} ConcatLength(hashes: seq<seq<byte>>)
    requires GoodHashes(hashes)
    ensures |Concat(hashes)| == INFOHASH_SIZE * |hashes|
  {
    if hashes != [] {
      assert hashes[0] in hashes;
      ConcatLength(hashes[1..]);
    }
  }

  lemma {:induction false} ConcatHeld(data: seq<byte>, i: nat, hashes: seq<seq<byte>>, k: nat)
    requires GoodHashes(hashes) && At(data, i, Concat(hashes)) && k < |hashes|
    ensures At(data, i + INFOHASH_SIZE * k, hashes[k])
    decreases k
  {
    assert hashes[0] in hashes;
    AtParts(data, i, hashes[0], Concat(hashes[1..]));
    if k > 0 {
      ConcatHeld(data, i + INFOHASH_SIZE, hashes[1..], k - 1);
    }
  }

  lemma {:induction false} HashesHeld(data: seq<byte>, hashes: seq<seq<byte>>)
    requires GoodHashes(hashes) && At(data, 16, Concat(hashes))
    ensures forall k :: 0 <= k < |hashes| ==> At(data, 16 + INFOHASH_SIZE * k, hashes[k])
  {
    hide At, Concat, GoodHashes;
    forall k | 0 <= k < |hashes| ensures At(data, 16 + INFOHASH_SIZE * k, hashes[k]) {
      ConcatHeld(data, 16, hashes, k);
    }
  }

  /** Each field of a scrape request stands where BEP 15 puts it, and nothing else does. */
  lemma {:induction false} ScrapeRequestLayout(connection: nat, txid: nat, hashes: seq<seq<byte>>)
    requires connection < U64 && txid < U32 && GoodHashes(hashes)
    ensures var q := ScrapeBytes(connection, txid, hashes);
            && |q| == 16 + 20 * |hashes|
            && Field(q, 0, 8) == connection && Field(q, 8, 4) == 2 && Field(q, 12, 4) == txid
            && forall k :: 0 <= k < |hashes| ==> At(q, 16 + 20 * k, hashes[k])
  {
    var q := ScrapeBytes(connection, txid, hashes);
    var a, b, c, d := Pack64(connection), Pack32(SCRAPE), Pack32(txid), Concat(hashes);
    hide Pack64, Pack32, Concat, At, Field, GoodHashes;
    ConcatLength(hashes);
    AtSelf(q);
    AtParts3(q, 0, a, b, c + d);
    AtParts(q, 12, c, d);
    FieldHeld(q, 0, a);
    FieldHeld(q, 8, b);
    FieldHeld(q, 12, c);
    HashesHeld(q, hashes);
  }

  // ---- responses --------------------------------------------------------------------

  datatype Row = Row(seeders: nat, completed: nat, leechers: nat)

  datatype Parsed<+T> =
    | Short | WrongTransaction(got: nat) | TrackerError(message: seq<byte>) | WrongAction(action: nat)
    | FewRows(available: nat) | Accepted(value: T)

  /** `parse_connect_response`: length, then transaction id, then action. */
  function ParseConnect(data: seq<byte>, expected: nat): Parsed<nat> {
    if |data| < 16 then
      if |data| >= 8 && Field(data, 0, 4) == ERROR && Field(data, 4, 4) == expected
      then TrackerError(data[8..]) else Short
    else if Field(data, 4, 4) != expected then WrongTransaction(Field(data, 4, 4))
    else if Field(data, 0, 4) == ERROR then TrackerError(data[8..])
    else if Field(data, 0, 4) != CONNECT then WrongAction(Field(data, 0, 4))
    else Accepted(Field(data, 8, 8))
  }

  /** The next `n` rows. */
  function Rows(data: seq<byte>, i: nat, n: nat): seq<Row>
    requires i + 12 * n <= |data|
    decreases n
  {
    if n == 0 then []
    else [Row(Field(data, i, 4), Field(data, i + 4, 4), Field(data, i + 8, 4))] + Rows(data, i + 12, n - 1)
  }

  /** What `parse_scrape_response` returns. */
  function ParseScrape(data: seq<byte>, expected: nat, n: nat): Parsed<seq<Row>> {
    if |data| < 8 then Short
    else if Field(data, 4, 4) != expected then WrongTransaction(Field(data, 4, 4))
    else if Field(data, 0, 4) == ERROR then TrackerError(data[8..])
    else if Field(data, 0, 4) != SCRAPE then WrongAction(Field(data, 0, 4))
    else if (|data| - 8) / 12 < n then FewRows((|data| - 8) / 12)
    else Accepted(Rows(data, 8, n))
  }

  /** Every answer to a connect request, exactly; numbers as BEP 15 gives them. */
  lemma {:induction false} ConnectIs(data: seq<byte>, expected: nat)
    ensures var r := ParseConnect(data, expected);
            var failed := |data| >= 8 && Field(data, 0, 4) == 3 && Field(data, 4, 4) == expected;
            && (r.TrackerError? <==> failed) && (r.TrackerError? ==> r.message == data[8..])
            && (r.Short? <==> |data| < 16 && !failed)
            && (r.WrongTransaction? <==> |data| >= 16 && Field(data, 4, 4) != expected)
            && (r.WrongTransaction? ==> r.got == Field(data, 4, 4))
            && (r.WrongAction? <==>
                  |data| >= 16 && Field(data, 4, 4) == expected && Field(data, 0, 4) !in {0, 3})
            && (r.WrongAction? ==> r.action == Field(data, 0, 4))
            && (r.Accepted? <==> |data| >= 16 && Field(data, 4, 4) == expected && Field(data, 0, 4) == 0)
            && (r.Accepted? ==> r.value == Field(data, 8, 8))
  {
    hide Field;
  }

  lemma {:induction false} RowsAre(data: seq<byte>, i: nat, n: nat, k: nat)
    requires i + 12 * n <= |data| && k < n
    ensures |Rows(data, i, n)| == n
    ensures var at := i + 12 * k;
            Rows(data, i, n)[k] == Row(Field(data, at, 4), Field(data, at + 4, 4), Field(data, at + 8, 4))
    decreases n
  {
    hide Field;
    if k > 0 {
      RowsAre(data, i + 12, n - 1, k - 1);
    } else if n > 1 {
      RowsAre(data, i + 12, n - 1, 0);
    }
  }

  /** Every answer to a scrape request, exactly. */
  lemma {:induction false} ScrapeIs(data: seq<byte>, expected: nat, n: nat)
    ensures var r := ParseScrape(data, expected, n);
            && (r.Short? <==> |data| < 8)
            && (r.WrongTransaction? <==> |data| >= 8 && Field(data, 4, 4) != expected)
            && (r.WrongTransaction? ==> r.got == Field(data, 4, 4))
            && (|data| >= 8 && Field(data, 4, 4) == expected ==>
                  var action := Field(data, 0, 4);
                  && (r.TrackerError? <==> action == 3) && (r.TrackerError? ==> r.message == data[8..])
                  && (r.WrongAction? <==> action !in {2, 3}) && (r.WrongAction? ==> r.action == action)
                  && (r.FewRows? <==> action == 2 && |data| < 8 + 12 * n)
                  && (r.FewRows? ==> 8 + 12 * r.available <= |data| < 8 + 12 * (r.available + 1))
                  && (r.Accepted? <==> action == 2 && |data| >= 8 + 12 * n)
                  && (r.Accepted? ==> |r.value| == n && forall k :: 0 <= k < n ==>
                        r.value[k] == Row(Field(data, 8 + 12 * k, 4), Field(data, 12 + 12 * k, 4),
                                          Field(data, 16 + 12 * k, 4))))
  {
    hide Field, Rows;
    if ParseScrape(data, expected, n).Accepted? {
      HowManyRows(data, 8, n);
      forall k | 0 <= k < n
        ensures Rows(data, 8, n)[k] == Row(Field(data, 8 + 12 * k, 4), Field(data, 12 + 12 * k, 4),
                                           Field(data, 16 + 12 * k, 4))
      {
        RowsAre(data, 8, n, k);
      }
    }
  }

  lemma {:induction false} HowManyRows(data: seq<byte>, i: nat, n: nat)
    requires i + 12 * n <= |data|
    ensures |Rows(data, i, n)| == n
    decreases n
  {
    hide Field;
    if n > 0 {
      HowManyRows(data, i + 12, n - 1);
    }
  }

  /** `parse_scrape_response`, with its loop over the rows. */
  method ParseScrapeResponse(data: seq<byte>, expected: nat, n: nat) returns (r: Parsed<seq<Row>>)
    ensures r == ParseScrape(data, expected, n)
  {
    hide Field;
    if |data| < 8 {
      return Short;
    }
    var action, txid := Field(data, 0, 4), Field(data, 4, 4);
    if txid != expected {
      return WrongTransaction(txid);
    }
    if action == ERROR {
      return TrackerError(data[8..]);
    }
    if action != SCRAPE {
      return WrongAction(action);
    }
    var available := (|data| - 8) / 12;
    if available < n {
      return FewRows(available);
    }
    var rows := ReadRows(data, n);
    return Accepted(rows);
  }

  method ReadRows(data: seq<byte>, n: nat) returns (rows: seq<Row>)
    requires 8 + 12 * n <= |data|
    ensures rows == Rows(data, 8, n)
  {
    hide Field;
    rows := [];
    ghost var all := Rows(data, 8, n);
    assert rows + all == all;
    for i := 0 to n
      invariant all == rows + Rows(data, 8 + 12 * i, n - i)
    {
      var at := 8 + 12 * i;
      var row := Row(Field(data, at, 4), Field(data, at + 4, 4), Field(data, at + 8, 4));
      ghost var rest := Rows(data, at + 12, n - i - 1);
      assert rows + ([row] + rest) == rows + [row] + rest;
      rows := rows + [row];
    }
    assert rows + [] == rows;
  }

  // ---- a tracker's side -----------------------------------------------------------------

  function ConnectResponse(txid: nat, connection: nat): seq<byte>
    requires txid < U32 && connection < U64
  {
    Pack32(CONNECT) + (Pack32(txid) + Pack64(connection))
  }

  predicate GoodRow(r: Row) { r.seeders < U32 && r.completed < U32 && r.leechers < U32 }

  function RowBytes(rows: seq<Row>): seq<byte>
    requires forall r :: r in rows ==> GoodRow(r)
  {
    if rows == [] then []
    else
      assert GoodRow(rows[0]);
      (Pack32(rows[0].seeders) + (Pack32(rows[0].completed) + Pack32(rows[0].leechers))) + RowBytes(rows[1..])
  }

  function ScrapeResponse(txid: nat, rows: seq<Row>): seq<byte>
    requires txid < U32 && forall r :: r in rows ==> GoodRow(r)
  {
    Pack32(SCRAPE) + (Pack32(txid) + RowBytes(rows))
  }

  /** A connect answer gives up its connection id to the asker, and to no other transaction. */
  lemma {:induction false} ConnectRoundTrip(txid: nat, connection: nat, padding: seq<byte>, expected: nat)
    requires txid < U32 && connection < U64
    ensures ParseConnect(ConnectResponse(txid, connection) + padding, expected)
         == if expected == txid then Accepted(connection) else WrongTransaction(txid)
  {
    var a, b, c := Pack32(CONNECT), Pack32(txid), Pack64(connection);
    hide Pack32, Pack64;
    var data := a + (b + c) + padding;
    AtSelf(data);
    AtParts(data, 0, a + (b + c), padding);
    AtParts3(data, 0, a, b, c);
    FieldHeld(data, 0, a);
    FieldHeld(data, 4, b);
    FieldHeld(data, 8, c);
  }

  lemma {:induction false} RowsRead(data: seq<byte>, i: nat, rows: seq<Row>)
    requires (forall r :: r in rows ==> GoodRow(r)) && At(data, i, RowBytes(rows))
    ensures |RowBytes(rows)| == 12 * |rows|
    ensures i + 12 * |rows| <= |data| && Rows(data, i, |rows|) == rows
    decreases |rows|
  {
    if rows != [] {
      assert GoodRow(rows[0]);
      var a, b, c := Pack32(rows[0].seeders), Pack32(rows[0].completed), Pack32(rows[0].leechers);
      hide Pack32;
      AtParts(data, i, a + (b + c), RowBytes(rows[1..]));
      AtParts3(data, i, a, b, c);
      FieldHeld(data, i, a);
      FieldHeld(data, i + 4, b);
      FieldHeld(data, i + 8, c);
      RowsRead(data, i + 12, rows[1..]);
      assert rows == [rows[0]] + rows[1..];
    }
  }

  /** A scrape answer is read row for row, and a missing row is never filled in. */
  lemma {:induction false} ScrapeRoundTrip(txid: nat, rows: seq<Row>, n: nat)
    requires txid < U32 && forall r :: r in rows ==> GoodRow(r)
    ensures ParseScrape(ScrapeResponse(txid, rows), txid, n)
         == if n <= |rows| then Accepted(rows[..n]) else FewRows(|rows|)
  {
    hide Pack32, RowBytes, At, Field, Rows, GoodRow;
    var a, b, c := Pack32(SCRAPE), Pack32(txid), RowBytes(rows);
    var data := ScrapeResponse(txid, rows);
    AtSelf(data);
    AtParts3(data, 0, a, b, c);
    FieldHeld(data, 0, a);
    FieldHeld(data, 4, b);
    RowsRead(data, 8, rows);
    if n <= |rows| {
      RowsPrefix(data, 8, |rows|, n);
    }
  }

  lemma {:induction false} RowsPrefix(data: seq<byte>, i: nat, m: nat, n: nat)
    requires n <= m && i + 12 * m <= |data|
    ensures |Rows(data, i, m)| == m && Rows(data, i, n) == Rows(data, i, m)[..n]
    decreases m
  {
    if m > 0 {
      RowsPrefix(data, i + 12, m - 1, if n > 0 then n - 1 else 0);
    }
  }
}
