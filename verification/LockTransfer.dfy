/** State transfer of the lock server: its table is marshalled on one replica and unmarshalled on
    another (mit_6.824/lock_server_cache_rsm.cc, lines 213-243; lock_server_cache_rsm.h, lines
    28-54). Sets and maps are written in the order of their iterators; nothing here depends on
    which order that is. */
module LockTransfer {
  import opened Marshall

  /** A client, host:port. */
  datatype Name = Name(text: seq<byte>)

  datatype Lock = Lock(id: nat)

  /** client_info. */
  datatype Info = Info(cid: Name, xid: nat, available: bool, waiters: set<Name>)

  type Table = map<Lock, Info>

  // ----- listings: containers in some order

  datatype Row = Row(lock: Lock, cid: Name, xid: nat, available: bool, waiters: seq<Name>)

  ghost function SetOf(ns: seq<Name>): set<Name> {
    set n | n in ns
  }

  ghost function InfoOf(row: Row): Info {
    Info(row.cid, row.xid, row.available, SetOf(row.waiters))
  }

  ghost predicate NoRepeats(ns: seq<Name>) {
    forall i, j :: 0 <= i < j < |ns| ==> ns[i] != ns[j]
  }

  /** The numbers and lengths that the wire format has room for. */
  ghost predicate NameFits(n: Name) {
    |n.text| < B4
  }

  ghost predicate NamesFit(ns: seq<Name>) {
    forall i :: 0 <= i < |ns| ==> NameFits(ns[i])
  }

  ghost predicate RowFits(row: Row) {
    && row.lock.id < B4 * B4 && row.xid < B4 * B4 && NameFits(row.cid)
    && NamesFit(row.waiters) && |row.waiters| < 0x8000_0000
  }

  ghost predicate RowsFit(rows: seq<Row>) {
    forall i :: 0 <= i < |rows| ==> RowFits(rows[i])
  }

  /** The table that rows put into a given one, later rows over earlier ones. */
  ghost function PutRows(t: Table, rows: seq<Row>): Table {
    if rows == [] then t else PutRows(t, rows[..|rows| - 1])[rows[|rows| - 1].lock := InfoOf(rows[|rows| - 1])]
  }

  ghost predicate Distinct(rows: seq<Row>) {
    forall i, j :: 0 <= i < j < |rows| ==> rows[i].lock != rows[j].lock
  }

  /** `rows` lists the table: each lock once, each waiter once. */
  ghost predicate Lists(rows: seq<Row>, t: Table) {
    && Distinct(rows) && |rows| == |t| && PutRows(map[], rows) == t
    && forall i :: 0 <= i < |rows| ==> NoRepeats(rows[i].waiters)
  }

  // ----- encoding

  ghost function EncNames(ns: seq<Name>): seq<byte> {
    if ns == [] then [] else EncString(ns[0].text) + EncNames(ns[1..])
  }

  ghost function EncInfo(row: Row): seq<byte>
    requires RowFits(row)
  {
    EncString(row.cid.text) + (EncLong(row.xid) + (EncBool(row.available) + (EncInt(|row.waiters|) +
      EncNames(row.waiters))))
  }

  ghost function EncRow(row: Row): seq<byte>
    requires RowFits(row)
  {
    EncLong(row.lock.id) + EncInfo(row)
  }

  ghost function EncRows(rows: seq<Row>): seq<byte>
    requires RowsFit(rows)
  {
    if rows == [] then [] else EncRow(rows[0]) + EncRows(rows[1..])
  }

  /** marshal_state. */
  ghost function EncTable(rows: seq<Row>): seq<byte>
    requires RowsFit(rows) && |rows| < B4
  {
    EncInt(|rows|) + EncRows(rows)
  }

  // ----- decoding

  /** Reads `n` names and adds them to a set; a negative count, seen as a number of 32 bits,
      reads none. */
  ghost function DecNames(n: nat, r: Reader, acc: set<Name>): (set<Name>, Reader) {
    if n == 0 then (acc, r)
    else
      var (s, r1) := DecString(r);
      DecNames(n - 1, r1, acc + {Name(s)})
  }

  function SignedCount(n: nat): nat {
    if n < 0x8000_0000 then n else 0
  }

  ghost function DecInfo(r: Reader): (Info, Reader) {
    var (cid, r1) := DecString(r);
    var (xid, r2) := DecLong(r1);
    var (available, r3) := DecBool(r2);
    var (n, r4) := DecInt(r3);
    var (waiters, r5) := DecNames(SignedCount(n), r4, {});
    (Info(Name(cid), xid, available, waiters), r5)
  }

  ghost function DecRows(n: nat, r: Reader, t: Table): (Table, Reader) {
    if n == 0 then (t, r)
    else
      var (lid, r1) := DecLong(r);
      var (info, r2) := DecInfo(r1);
      DecRows(n - 1, r2, t[Lock(lid) := info])
  }

  /** unmarshal_state, into a server that already has table `t`. */
  ghost function DecTable(bs: seq<byte>, t: Table): (Table, Reader) {
    var (n, r) := DecInt(Reader(bs, true));
    DecRows(n, r, t)
  }

  // ----- round trip

  lemma {:induction false} NamesBack(ns: seq<Name>, rest: seq<byte>, acc: set<Name>)
    requires NamesFit(ns)
    ensures DecNames(|ns|, Reader(EncNames(ns) + rest, true), acc) == (acc + SetOf(ns), Reader(rest, true))
  {
    hide DecString, EncString;
    if ns == [] {
      assert EncNames(ns) + rest == rest && acc + SetOf(ns) == acc;
    } else {
      var bs := EncNames(ns[1..]) + rest;
      assert EncNames(ns) + rest == EncString(ns[0].text) + bs;
      StringBack(ns[0].text, bs);
      NamesBack(ns[1..], rest, acc + {ns[0]});
      SetSplit(ns);
      assert acc + {ns[0]} + SetOf(ns[1..]) == acc + SetOf(ns);
    }
  }

  lemma SetSplit(ns: seq<Name>)
    requires ns != []
    ensures SetOf(ns) == {ns[0]} + SetOf(ns[1..])
  {
    assert ns == [ns[0]] + ns[1..];
  }

  lemma Nest(a: seq<byte>, b: seq<byte>, c: seq<byte>)
    ensures (a + b) + c == a + (b + c)
  {}

  lemma InfoNests(row: Row, rest: seq<byte>)
    requires RowFits(row)
    ensures EncInfo(row) + rest ==
            EncString(row.cid.text) + (EncLong(row.xid) + (EncBool(row.available) + (EncInt(|row.waiters|) +
              (EncNames(row.waiters) + rest))))
  {
    hide EncString, EncLong, EncBool, EncInt, EncNames;
    var a5 := EncInt(|row.waiters|) + EncNames(row.waiters);
    var a4 := EncBool(row.available) + a5;
    var a3 := EncLong(row.xid) + a4;
    Nest(EncString(row.cid.text), a3, rest);
    Nest(EncLong(row.xid), a4, rest);
    Nest(EncBool(row.available), a5, rest);
    Nest(EncInt(|row.waiters|), EncNames(row.waiters), rest);
  }

  lemma InfoBack(row: Row, rest: seq<byte>)
    requires RowFits(row)
    ensures DecInfo(Reader(EncInfo(row) + rest, true)) == (InfoOf(row), Reader(rest, true))
  {
    hide DecString, EncString, DecLong, EncLong, DecBool, EncBool, DecInt, EncInt, DecNames, EncNames, SetOf, EncInfo;
    InfoNests(row, rest);
    var b5 := EncNames(row.waiters) + rest;
    var b4 := EncInt(|row.waiters|) + b5;
    var b3 := EncBool(row.available) + b4;
    var b2 := EncLong(row.xid) + b3;
    StringBack(row.cid.text, b2);
    LongBack(row.xid, b3);
    BoolBack(row.available, b4);
    IntBack(|row.waiters|, b5);
    NamesBack(row.waiters, rest, {});
    assert {} + SetOf(row.waiters) == SetOf(row.waiters);
  }

  lemma {:induction false} RowsBack(rows: seq<Row>, rest: seq<byte>, t: Table)
    requires RowsFit(rows)
    ensures DecRows(|rows|, Reader(EncRows(rows) + rest, true), t) == (PutRows(t, rows), Reader(rest, true))
  {
    hide EncRow, DecLong, DecInfo, InfoOf, RowFits;
    if rows == [] {
      assert EncRows(rows) + rest == rest;
    } else {
      var row, more := rows[0], EncRows(rows[1..]) + rest;
      assert EncRows(rows) + rest == EncRow(row) + more;
      assert RowFits(row);
      RowBack(row, more);
      RowsBack(rows[1..], rest, t[row.lock := InfoOf(row)]);
      PutFirst(t, rows);
    }
  }

  lemma RowBack(row: Row, more: seq<byte>)
    requires RowFits(row)
    ensures var (lid, r1) := DecLong(Reader(EncRow(row) + more, true));
            Lock(lid) == row.lock && DecInfo(r1) == (InfoOf(row), Reader(more, true))
  {
    hide DecLong, DecInfo, InfoOf, EncLong, EncInfo;
    Nest(EncLong(row.lock.id), EncInfo(row), more);
    LongBack(row.lock.id, EncInfo(row) + more);
    InfoBack(row, more);
  }

  lemma {:induction false} PutFirst(t: Table, rows: seq<Row>)
    requires rows != []
    ensures PutRows(t, rows) == PutRows(t[rows[0].lock := InfoOf(rows[0])], rows[1..])
  {
    hide InfoOf;
    if |rows| > 1 {
      var n := |rows| - 1;
      PutFirst(t, rows[..n]);
      assert rows[1..][..n - 1] == rows[..n][1..];
    }
  }

  /** Putting rows into a table is merging what they list into it. */
  lemma {:induction false} PutRowsMerges(t: Table, rows: seq<Row>)
    ensures PutRows(t, rows) == t + PutRows(map[], rows)
  {
    hide InfoOf;
    if rows != [] { PutRowsMerges(t, rows[..|rows| - 1]); }
  }

  /** Decoding a marshalled table merges it into the table that is there and consumes the bytes
      exactly. */
  lemma TransferMerges(rows: seq<Row>, sent: Table, there: Table)
    requires RowsFit(rows) && |rows| < B4 && Lists(rows, sent)
    ensures DecTable(EncTable(rows), there) == (there + sent, Reader([], true))
  {
    hide EncRows, DecRows, PutRows, DecInt, EncInt, RowsFit;
    IntBack(|rows|, EncRows(rows));
    RowsBack(rows, [], there);
    assert EncRows(rows) + [] == EncRows(rows);
    PutRowsMerges(there, rows);
  }

  /** An empty server gets the same table. In general it ends up with the table that was sent
      exactly if it has no other locks, since the old table is not cleared. */
  lemma TransferIsExactWhen(rows: seq<Row>, sent: Table, there: Table)
    requires RowsFit(rows) && |rows| < B4 && Lists(rows, sent)
    ensures DecTable(EncTable(rows), map[]) == (sent, Reader([], true))
    ensures DecTable(EncTable(rows), there).0 == sent <==> there.Keys <= sent.Keys
  {
    hide EncTable, DecTable, Lists, RowsFit;
    TransferMerges(rows, sent, map[]);
    TransferMerges(rows, sent, there);
    assert map[] + sent == sent;
    var merged := there + sent;
    if there.Keys <= sent.Keys {
      assert merged == sent;
    }
    if merged == sent {
      forall k | k in there ensures k in sent { assert k in merged; }
    }
  }

  const HELD := Info(Name([]), 1, false, {})

  /** A server that knows lock 2 still knows it after it has got a table with lock 1 only. */
  lemma OldLockStays()
    ensures var rows, sent, there := [Row(Lock(1), Name([]), 1, false, [])], map[Lock(1) := HELD], map[Lock(2) := HELD];
            RowsFit(rows) && Lists(rows, sent) && DecTable(EncTable(rows), there).0 != sent
  {
    hide EncTable, DecTable;
    var rows, sent, there := [Row(Lock(1), Name([]), 1, false, [])], map[Lock(1) := HELD], map[Lock(2) := HELD];
    assert rows[..0] == [] && SetOf([]) == {};
    assert PutRows(map[], rows) == PutRows(map[], rows[..0])[Lock(1) := HELD];
    TransferIsExactWhen(rows, sent, there);
    assert Lock(2) in there.Keys && Lock(2) !in sent.Keys;
  }

  // ----- the program

  ghost predicate InfoFits(info: Info) {
    && NameFits(info.cid) && info.xid < B4 * B4 && |info.waiters| < 0x8000_0000
    && forall n :: n in info.waiters ==> NameFits(n)
  }

  ghost predicate TableFits(t: Table) {
    |t| < B4 && forall k :: k in t ==> k.id < B4 * B4 && InfoFits(t[k])
  }

  lemma {:induction false} NamesSnoc(ns: seq<Name>, n: Name)
    ensures EncNames(ns + [n]) == EncNames(ns) + EncString(n.text)
  {
    hide EncString;
    var more := ns + [n];
    if ns == [] {
      assert more[1..] == [] && EncNames(more) == EncString(n.text) + [];
    } else {
      assert more[1..] == ns[1..] + [n];
      NamesSnoc(ns[1..], n);
      Nest(EncString(ns[0].text), EncNames(ns[1..]), EncString(n.text));
    }
  }

  lemma {:induction false} RowsSnoc(rows: seq<Row>, row: Row)
    requires RowsFit(rows) && RowFits(row)
    ensures RowsFit(rows + [row]) && EncRows(rows + [row]) == EncRows(rows) + EncRow(row)
  {
    hide EncRow, RowFits;
    var more := rows + [row];
    if rows == [] {
      assert more[1..] == [] && EncRows(more) == EncRow(row) + [];
    } else {
      assert more[1..] == rows[1..] + [row];
      RowsSnoc(rows[1..], row);
      Nest(EncRow(rows[0]), EncRows(rows[1..]), EncRow(row));
    }
  }

  lemma TakeName(s: set<Name>, ns: seq<Name>, rest: set<Name>, n: Name)
    requires NoRepeats(ns) && SetOf(ns) == s - rest && |ns| + |rest| == |s| && rest <= s && n in rest
    ensures NoRepeats(ns + [n]) && SetOf(ns + [n]) == s - (rest - {n}) && |ns + [n]| + |rest - {n}| == |s|
  {
    forall i | 0 <= i < |ns| ensures ns[i] != n { assert ns[i] in SetOf(ns); }
    assert SetOf(ns + [n]) == SetOf(ns) + {n} && (s - rest) + {n} == s - (rest - {n});
  }

  /** Writes the elements of a set in some order. */
  method PutNames(w: Writer, s: set<Name>) returns (ghost ns: seq<Name>)
    requires w.Valid()
    modifies w, w.buf
    ensures w.Valid() && (w.buf == old(w.buf) || fresh(w.buf))
    ensures NoRepeats(ns) && SetOf(ns) == s && |ns| == |s| && w.Content() == old(w.Content()) + EncNames(ns)
  {
    hide EncNames, EncString, NoRepeats, SetOf;
    var rest := s;
    ns := [];
    NoNames();
    assert s - rest == {} && w.Content() + [] == w.Content();
    while rest != {}
      invariant w.Valid() && (w.buf == old(w.buf) || fresh(w.buf)) && rest <= s
      invariant NoRepeats(ns) && SetOf(ns) == s - rest && |ns| + |rest| == |s|
      invariant w.Content() == old(w.Content()) + EncNames(ns)
      decreases |rest|
    {
      var n :| n in rest;
      TakeName(s, ns, rest, n);
      NamesSnoc(ns, n);
      Nest(old(w.Content()), EncNames(ns), EncString(n.text));
      w.PutString(n.text);
      ns := ns + [n];
      rest := rest - {n};
    }
    assert s - {} == s;
  }

  lemma NoNames()
    ensures NoRepeats([]) && SetOf([]) == {} && EncNames([]) == []
  {}

  method PutInfo(w: Writer, lock: Lock, info: Info) returns (ghost row: Row)
    requires w.Valid() && lock.id < B4 * B4 && InfoFits(info)
    modifies w, w.buf
    ensures w.Valid() && (w.buf == old(w.buf) || fresh(w.buf))
    ensures RowFits(row) && row.lock == lock && InfoOf(row) == info && NoRepeats(row.waiters)
    ensures w.Content() == old(w.Content()) + EncInfo(row)
  {
    hide EncNames, EncString, EncLong, EncInt, EncBool, NoRepeats;
    ghost var c0 := w.Content();
    w.PutString(info.cid.text);
    w.PutLong(info.xid);
    w.PutBool(info.available);
    w.PutInt(|info.waiters|);
    ghost var ns := PutNames(w, info.waiters);
    row := Row(lock, info.cid, info.xid, info.available, ns);
    WaitersFit(ns, info);
    FiveParts(c0, EncString(info.cid.text), EncLong(info.xid), EncBool(info.available), EncInt(|ns|), EncNames(ns));
  }

  lemma WaitersFit(ns: seq<Name>, info: Info)
    requires SetOf(ns) == info.waiters && InfoFits(info)
    ensures NamesFit(ns)
  {
    forall i | 0 <= i < |ns| ensures NameFits(ns[i]) { assert ns[i] in SetOf(ns); }
  }

  lemma FiveParts(z: seq<byte>, a: seq<byte>, b: seq<byte>, c: seq<byte>, d: seq<byte>, e: seq<byte>)
    ensures z + a + b + c + d + e == z + (a + (b + (c + (d + e))))
  {
    Nest(z + a + b + c, d, e);
    Nest(z + a + b, c, d + e);
    Nest(z + a, b, c + (d + e));
    Nest(z, a, b + (c + (d + e)));
  }

  /** `rows` lists the part of the table outside `rest`. */
  ghost predicate Listed(rows: seq<Row>, t: Table, rest: set<Lock>) {
    && RowsFit(rows) && Distinct(rows) && rest <= t.Keys && PutRows(map[], rows) == t - rest && |rows| + |rest| == |t|
    && (forall i :: 0 <= i < |rows| ==> rows[i].lock in t && rows[i].lock !in rest)
    && (forall i :: 0 <= i < |rows| ==> NoRepeats(rows[i].waiters))
  }

  lemma PutRowsSnoc(t: Table, rows: seq<Row>, row: Row)
    ensures PutRows(t, rows + [row]) == PutRows(t, rows)[row.lock := InfoOf(row)]
  {
    hide InfoOf;
    assert (rows + [row])[..|rows|] == rows;
  }

  lemma LessLeft(t: Table, rest: set<Lock>, k: Lock)
    requires k in rest && k in t
    ensures (t - rest)[k := t[k]] == t - (rest - {k})
  {}

  lemma ListMore(rows: seq<Row>, t: Table, rest: set<Lock>, row: Row)
    requires Listed(rows, t, rest) && row.lock in rest && RowFits(row) && InfoOf(row) == t[row.lock]
    requires NoRepeats(row.waiters)
    ensures Listed(rows + [row], t, rest - {row.lock}) && EncRows(rows + [row]) == EncRows(rows) + EncRow(row)
  {
    hide InfoOf, RowFits, NoRepeats, EncRow, PutRows, RowsFit;
    RowsSnoc(rows, row);
    PutRowsSnoc(map[], rows, row);
    LessLeft(t, rest, row.lock);
  }

  lemma NothingListed(t: Table)
    ensures Listed([], t, t.Keys)
  {
    assert t - t.Keys == map[];
  }

  lemma AllListed(rows: seq<Row>, t: Table)
    requires Listed(rows, t, {})
    ensures Lists(rows, t)
  {
    assert t - {} == t;
  }

  method MarshalState(t: Table) returns (content: seq<byte>, ghost rows: seq<Row>)
    requires TableFits(t)
    ensures RowsFit(rows) && |rows| < B4 && Lists(rows, t) && content == EncTable(rows)
    ensures DecTable(content, map[]) == (t, Reader([], true))
  {
    hide EncInt, EncLong, EncInfo, Listed, RowFits, InfoOf, EncRows, DecTable;
    var w := new Writer();
    w.PutInt(|t|);
    assert w.Content() == EncInt(|t|);
    var rest := t.Keys;
    rows := [];
    NothingListed(t);
    NoRows();
    assert EncInt(|t|) + [] == EncInt(|t|);
    while rest != {}
      invariant fresh(w) && fresh(w.buf) && w.Valid() && Listed(rows, t, rest) && rest <= t.Keys
      invariant RowsFit(rows) && w.Content() == EncInt(|t|) + EncRows(rows)
      decreases |rest|
    {
      var lock :| lock in rest;
      ghost var before := w.Content();
      w.PutLong(lock.id);
      ghost var row := PutInfo(w, lock, t[lock]);
      Nest(before, EncLong(lock.id), EncInfo(row));
      ListMore(rows, t, rest, row);
      ListedFits(rows + [row], t, rest - {lock});
      Nest(EncInt(|t|), EncRows(rows), EncRow(row));
      rows := rows + [row];
      rest := rest - {lock};
    }
    AllListed(rows, t);
    TransferIsExactWhen(rows, t, map[]);
    content := w.buf[RPC_HEADER_SZ..w.ind];
  }

  lemma NoRows()
    ensures RowsFit([]) && EncRows([]) == []
  {}

  lemma ListedFits(rows: seq<Row>, t: Table, rest: set<Lock>)
    requires Listed(rows, t, rest)
    ensures RowsFit(rows)
  {}

  // ----- a reader that has failed stays so

  lemma {:induction false} NamesKeepFailure(n: nat, r: Reader, acc: set<Name>)
    requires !r.ok
    ensures !DecNames(n, r, acc).1.ok
  {
    if n > 0 { NamesKeepFailure(n - 1, DecString(r).1, acc + {Name(DecString(r).0)}); }
  }

  lemma InfoFails(r: Reader)
    requires !DecString(r).1.ok
    ensures !DecInfo(r).1.ok
  {
    hide DecNames, DecString;
    var r4 := DecInt(DecBool(DecLong(DecString(r).1).1).1);
    NamesKeepFailure(SignedCount(r4.0), r4.1, {});
  }

  lemma TableIsRows(bs: seq<byte>, t: Table)
    ensures var (n, r) := DecInt(Reader(bs, true)); DecTable(bs, t) == DecRows(n, r, t)
  {
    hide DecInt, DecRows;
  }

  lemma NoRow(r: Reader, t: Table)
    ensures DecRows(0, r, t) == (t, r)
  {}

  lemma RowStep(n: nat, r: Reader, t: Table)
    requires n > 0
    ensures var (lid, r1) := DecLong(r);
            DecRows(n, r, t) == DecRows(n - 1, DecInfo(r1).1, t[Lock(lid) := DecInfo(r1).0])
  {
    hide DecLong, DecInfo;
  }

  lemma LongKeepsFailure(r: Reader)
    requires !r.ok
    ensures !DecLong(r).1.ok && !DecString(DecLong(r).1).1.ok
  {}

  lemma {:induction false} RowsKeepFailure(n: nat, r: Reader, t: Table)
    requires !r.ok
    ensures !DecRows(n, r, t).1.ok
  {
    hide DecInfo, DecLong, DecString;
    if n > 0 {
      var (lid, r1) := DecLong(r);
      LongKeepsFailure(r);
      InfoFails(r1);
      RowsKeepFailure(n - 1, DecInfo(r1).1, t[Lock(lid) := DecInfo(r1).0]);
    }
  }

  /** Reads an entry. A read outside of the buffer happens only where the entry is not there in full. */
  method GetInfo(u: Scanner) returns (info: Info)
    requires u.Valid() && !u.outside
    modifies u
    ensures u.Valid()
    ensures if u.outside then !DecInfo(old(u.Left())).1.ok else (info, u.Left()) == DecInfo(old(u.Left()))
  {
    hide DecString, DecLong, DecBool, DecInt, DecNames, Overread;
    var cid := u.GetString();
    if u.outside {
      assert !DecString(old(u.Left())).1.ok by { OverreadFails(old(u.Left()), |u.buf|); }
      InfoFails(old(u.Left()));
      return Info(Name(cid), 0, false, {});
    }
    var xid := u.GetLong();
    var available := u.GetBool();
    var n := u.GetInt();
    var waiters := GetNames(u, SignedCount(n));
    info := Info(Name(cid), xid, available, waiters);
  }

  method GetNames(u: Scanner, n: nat) returns (s: set<Name>)
    requires u.Valid() && !u.outside
    modifies u
    ensures u.Valid()
    ensures if u.outside then !DecNames(n, old(u.Left()), {}).1.ok
            else (s, u.Left()) == DecNames(n, old(u.Left()), {})
  {
    hide DecString, Overread;
    s := {};
    for i := 0 to n
      invariant u.Valid() && !u.outside && DecNames(n - i, u.Left(), s) == DecNames(n, old(u.Left()), {})
    {
      ghost var r := u.Left();
      var clt := u.GetString();
      if u.outside {
        OverreadFails(r, |u.buf|);
        NamesKeepFailure(n - i - 1, DecString(r).1, s + {Name(DecString(r).0)});
        return;
      }
      s := s + {Name(clt)};
    }
  }

  /** Reads one of `n` rows. */
  method GetRow(u: Scanner, ghost n: nat, t: Table) returns (t': Table)
    requires u.Valid() && !u.outside && n > 0
    modifies u
    ensures u.Valid()
    ensures if u.outside then !DecRows(n, old(u.Left()), t).1.ok
            else DecRows(n - 1, u.Left(), t') == DecRows(n, old(u.Left()), t)
  {
    hide DecLong, DecInfo, DecRows;
    RowStep(n, u.Left(), t);
    var lid := u.GetLong();
    ghost var r := u.Left();
    var info := GetInfo(u);
    t' := t[Lock(lid) := info];
    if u.outside { RowsKeepFailure(n - 1, DecInfo(r).1, t[Lock(lid) := DecInfo(r).0]); }
  }

  /** Reads a marshalled table into a server that has table `t`; `done` tells whether the bytes
      were consumed exactly. A read outside of the buffer happens only where the bytes are not those
      of a table. */
  method UnmarshalState(content: seq<byte>, t: Table) returns (t': Table, done: bool, outside: bool)
    ensures if outside then !DecTable(content, t).1.ok
            else t' == DecTable(content, t).0 && (done <==> DecTable(content, t).1 == Reader([], true))
  {
    hide DecInt, DecRows, DecTable;
    var u := new Scanner(content);
    var n := u.GetInt();
    TableIsRows(content, t);
    t' := t;
    for i := 0 to n
      invariant fresh(u) && u.Valid() && !u.outside && DecRows(n - i, u.Left(), t') == DecTable(content, t)
    {
      t' := GetRow(u, n - i, t');
      if u.outside { return t', false, true; }
    }
    NoRow(u.Left(), t');
    done, outside := u.OkDone(), false;
  }

  /** One replica's table, sent to an empty one. */
  method Transfer(t: Table) returns (t': Table, done: bool, outside: bool)
    requires TableFits(t)
    ensures t' == t && done && !outside
  {
    hide EncTable, DecTable, Lists, RowsFit;
    var content, _ := MarshalState(t);
    t', done, outside := UnmarshalState(content, map[]);
  }
}
