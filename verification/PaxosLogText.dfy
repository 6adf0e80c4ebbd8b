/** The text of the durable log (mit_6.824/log.cc): how records are printed and how the reader,
    with the stream operations of C++, takes them apart again. */
module PaxosLogText {
  import opened Options
  import opened PaxosAcceptor

  const UINT_MAX := 0xFFFF_FFFF

  // ----- printing

  function Digit(d: nat): char
    requires d < 10
  {
    '0' + d as char
  }

  /** An unsigned number in decimal. */
  function Dec(n: nat): string {
    if n < 10 then [Digit(n)] else Dec(n / 10) + [Digit(n % 10)]
  }

  function Print(r: Record): string {
    match r
    case Done(instance, v) => "done" + (" " + (Dec(instance) + (" " + (v + "\n"))))
    case PropSeen(n) => "propseen" + (" " + (Dec(n.n) + (" " + (n.m.text + "\n"))))
    case Accepted(n, v) => "accepted" + (" " + (Dec(n.n) + (" " + (n.m.text + (" " + (v + "\n"))))))
  }

  function PrintLog(log: seq<Record>): string {
    if log == [] then "" else Print(log[0]) + PrintLog(log[1..])
  }

  // ----- the stream operations, on the text that is still unread

  predicate Space(c: char) {
    c == ' ' || c == '\n' || c == '\t' || c == '\r' || c as int == 11 || c as int == 12
  }

  predicate IsDigit(c: char) {
    '0' <= c <= '9'
  }

  function Skip(s: string): string {
    if s != "" && Space(s[0]) then Skip(s[1..]) else s
  }

  /** What the readers collect: a word, the digits of a number, a line. */
  datatype Part = WordPart | NumberPart | LinePart

  predicate Belongs(part: Part, c: char) {
    match part
    case WordPart => !Space(c)
    case NumberPart => IsDigit(c)
    case LinePart => c != '\n'
  }

  predicate AllBelong(part: Part, w: string) {
    forall i :: 0 <= i < |w| ==> Belongs(part, w[i])
  }

  function Span(part: Part, s: string): (w: string)
    ensures w <= s && AllBelong(part, w)
  {
    if s == "" || !Belongs(part, s[0]) then "" else [s[0]] + Span(part, s[1..])
  }

  function Value(ds: string): nat
    requires AllBelong(NumberPart, ds)
  {
    if ds == "" then 0 else
      assert Belongs(NumberPart, ds[|ds| - 1]);
      10 * Value(ds[..|ds| - 1]) + (ds[|ds| - 1] as int - '0' as int)
  }

  /** `from >> word`: fails at the end of the text. */
  function TakeWord(s: string): Option<(string, string)> {
    var t := Skip(s);
    var w := Span(WordPart, t);
    if w == "" then None else Some((w, t[|w|..]))
  }

  /** `from >> number`: fails without a digit and on overflow. */
  function TakeNumber(s: string): Option<(nat, string)> {
    var t := Skip(s);
    var ds := Span(NumberPart, t);
    if ds == "" || Value(ds) > UINT_MAX then None else Some((Value(ds), t[|ds|..]))
  }

  /** `from.get()` followed by `getline(from, v)`: fails if nothing is left. */
  function TakeLine(s: string): Option<(string, string)> {
    if |s| <= 1 then None
    else
      var l := Span(LinePart, s[1..]);
      Some((l, if |l| < |s| - 1 then s[|l| + 2..] else ""))
  }

  function TakeProp(s: string): Option<(Prop, string)> {
    match TakeNumber(s)
    case None => None
    case Some((n, s1)) =>
      match TakeWord(s1)
      case None => None
      case Some((m, s2)) => Some((Prop(n, Name(m)), s2))
  }

  /** The rest of a record, after its first word. */
  function TakeBody(kind: string, s: string): Option<(Record, string)> {
    if kind == "done" then
      match TakeNumber(s)
      case None => None
      case Some((n, s1)) =>
        match TakeLine(s1)
        case None => None
        case Some((v, s2)) => Some((Done(n, v), s2))
    else if kind == "propseen" then
      match TakeProp(s)
      case None => None
      case Some((n, s1)) => Some((PropSeen(n), s1))
    else if kind == "accepted" then
      match TakeProp(s)
      case None => None
      case Some((n, s1)) =>
        match TakeLine(s1)
        case None => None
        case Some((v, s2)) => Some((Accepted(n, v), s2))
    else None
  }

  lemma {:induction false} SkipLength(s: string)
    ensures |Skip(s)| <= |s|
  {
    if s != "" && Space(s[0]) { SkipLength(s[1..]); }
  }

  lemma BodyLength(kind: string, s: string)
    ensures TakeBody(kind, s).Some? ==> |TakeBody(kind, s).value.1| <= |s|
  {
    SkipLength(s);
    if TakeNumber(s).Some? { SkipLength(TakeNumber(s).value.1); }
  }

  lemma WordLength(s: string)
    ensures TakeWord(s).Some? ==> |TakeWord(s).value.1| < |s|
  {
    SkipLength(s);
  }

  /** The records of a text; None where the reader would stop the process or lose its place. */
  function Parse(s: string): Option<seq<Record>>
    decreases |s|
  {
    match TakeWord(s)
    case None => Some([])
    case Some((kind, s1)) =>
      WordLength(s);
      match TakeBody(kind, s1)
      case None => None
      case Some((r, s2)) =>
        BodyLength(kind, s1);
        match Parse(s2)
        case None => None
        case Some(rest) => Some([r] + rest)
  }

  // ----- what can be printed

  predicate IsWord(s: string) {
    s != "" && AllBelong(WordPart, s)
  }

  predicate Printable(r: Record) {
    match r
    case Done(instance, v) => instance <= UINT_MAX && AllBelong(LinePart, v)
    case PropSeen(n) => n.n <= UINT_MAX && IsWord(n.m.text)
    case Accepted(n, v) => n.n <= UINT_MAX && IsWord(n.m.text) && AllBelong(LinePart, v)
  }

  // ----- round trip

  lemma {:induction false} SpanOf(part: Part, w: string, rest: string)
    requires AllBelong(part, w) && (rest == "" || !Belongs(part, rest[0]))
    ensures Span(part, w + rest) == w
  {
    if w == "" {
      assert w + rest == rest;
    } else {
      assert (w + rest)[1..] == w[1..] + rest;
      SpanOf(part, w[1..], rest);
      assert w == [w[0]] + w[1..];
    }
  }

  lemma {:induction false} DecIsDigits(n: nat)
    ensures Dec(n) != "" && AllBelong(NumberPart, Dec(n)) && Value(Dec(n)) == n
  {
    var d := Dec(n);
    if n < 10 {
      assert d[..0] == "";
    } else {
      DecIsDigits(n / 10);
      assert d[..|d| - 1] == Dec(n / 10);
    }
  }

  lemma NumberBack(n: nat, rest: string)
    requires n <= UINT_MAX
    ensures TakeNumber(Dec(n) + " " + rest) == Some((n, " " + rest))
    ensures TakeNumber(" " + (Dec(n) + " " + rest)) == Some((n, " " + rest))
  {
    hide Dec, Value, Span;
    DecIsDigits(n);
    var s := Dec(n) + " " + rest;
    assert s == Dec(n) + (" " + rest);
    SpanOf(NumberPart, Dec(n), " " + rest);
    assert s[0] == Dec(n)[0] && Belongs(NumberPart, s[0]) && !Space(s[0]);
    assert (" " + s)[1..] == s;
    assert s[|Dec(n)|..] == " " + rest;
  }

  lemma WordBack(w: string, rest: string)
    requires IsWord(w) && rest != "" && Space(rest[0])
    ensures TakeWord(w + rest) == Some((w, rest))
    ensures TakeWord(" " + (w + rest)) == Some((w, rest))
  {
    SpanOf(WordPart, w, rest);
    assert (w + rest)[0] == w[0] && Belongs(WordPart, w[0]);
    assert (" " + (w + rest))[1..] == w + rest;
    assert (w + rest)[|w|..] == rest;
  }

  lemma LineBack(v: string, rest: string)
    requires AllBelong(LinePart, v)
    ensures TakeLine(" " + (v + "\n" + rest)) == Some((v, rest))
  {
    var s := " " + (v + "\n" + rest);
    Assoc(v, "\n", rest);
    SpanOf(LinePart, v, "\n" + rest);
    assert s[1..] == v + "\n" + rest;
    assert s[|v| + 2..] == rest;
  }

  lemma PropBack(n: Prop, rest: string)
    requires n.n <= UINT_MAX && IsWord(n.m.text) && rest != "" && Space(rest[0])
    ensures TakeProp(" " + (Dec(n.n) + " " + (n.m.text + rest))) == Some((n, rest))
  {
    hide TakeNumber, TakeWord, IsWord, Space;
    NumberBack(n.n, n.m.text + rest);
    WordBack(n.m.text, rest);
  }

  /** The first word of a printed record, and what follows it. */
  function KindOf(r: Record): string {
    match r
    case Done(_, _) => "done"
    case PropSeen(_) => "propseen"
    case Accepted(_, _) => "accepted"
  }

  function BodyOf(r: Record, rest: string): string {
    match r
    case Done(instance, v) => " " + (Dec(instance) + " " + (v + "\n" + rest))
    case PropSeen(n) => " " + (Dec(n.n) + " " + (n.m.text + ("\n" + rest)))
    case Accepted(n, v) => " " + (Dec(n.n) + " " + (n.m.text + (" " + (v + "\n" + rest))))
  }

  lemma Assoc(a: string, b: string, c: string)
    ensures (a + b) + c == a + (b + c)
  {}

  /** Appends to the innermost of four pieces. */
  lemma Nested(a: string, b: string, c: string, d: string, rest: string)
    ensures (a + (b + (c + d))) + rest == a + (b + (c + (d + rest)))
  {
    Assoc(a, b + (c + d), rest);
    Assoc(b, c + d, rest);
    Assoc(c, d, rest);
  }

  lemma PrintSplits(r: Record, rest: string)
    ensures Print(r) + rest == KindOf(r) + BodyOf(r, rest)
  {
    hide Dec;
    match r {
      case Done(instance, v) =>
        Nested("done", " ", Dec(instance), " " + (v + "\n"), rest);
        Assoc(" ", v + "\n", rest);
      case PropSeen(n) =>
        Nested("propseen", " ", Dec(n.n), " " + (n.m.text + "\n"), rest);
        Assoc(" ", n.m.text + "\n", rest);
        Assoc(n.m.text, "\n", rest);
      case Accepted(n, v) =>
        Nested("accepted", " ", Dec(n.n), " " + (n.m.text + (" " + (v + "\n"))), rest);
        Nested(" ", n.m.text, " ", v + "\n", rest);
    }
  }

  lemma BodyBack(r: Record, rest: string)
    requires Printable(r)
    ensures TakeBody(KindOf(r), BodyOf(r, rest)) == Some((r, match r case PropSeen(_) => "\n" + rest case _ => rest))
  {
    hide TakeNumber, TakeProp, TakeLine, IsWord, Dec;
    match r {
      case Done(instance, v) =>
        NumberBack(instance, v + "\n" + rest);
        LineBack(v, rest);
      case PropSeen(n) =>
        PropBack(n, "\n" + rest);
      case Accepted(n, v) =>
        PropBack(n, " " + (v + "\n" + rest));
        LineBack(v, rest);
    }
  }

  lemma SkipNewline(rest: string)
    ensures Parse("\n" + rest) == Parse(rest)
  {
    assert ("\n" + rest)[1..] == rest;
  }

  lemma KindWord(r: Record)
    ensures IsWord(KindOf(r))
  {}

  lemma RecordBack(r: Record, rest: string)
    requires Printable(r)
    ensures Parse(Print(r) + rest) == match Parse(rest) case None => None case Some(more) => Some([r] + more)
  {
    hide TakeBody, TakeWord, IsWord, BodyOf, Print, Printable, Space;
    PrintSplits(r, rest);
    KindWord(r);
    BodyStartsWithSpace(r, rest);
    WordBack(KindOf(r), BodyOf(r, rest));
    BodyBack(r, rest);
    SkipNewline(rest);
  }

  lemma BodyStartsWithSpace(r: Record, rest: string)
    ensures BodyOf(r, rest) != "" && Space(BodyOf(r, rest)[0])
  {}

  lemma {:induction false} PrintedLogReadsBack(log: seq<Record>)
    requires forall i :: 0 <= i < |log| ==> Printable(log[i])
    ensures Parse(PrintLog(log)) == Some(log)
  {
    hide Parse, Print, Printable;
    if log == [] {
      EmptyText();
    } else {
      PrintedLogReadsBack(log[1..]);
      RecordBack(log[0], PrintLog(log[1..]));
      assert log == [log[0]] + log[1..];
    }
  }

  lemma EmptyText()
    ensures Parse("") == Some([])
  {}

  // ----- the reader yields only what can be printed

  lemma BodyPrintable(kind: string, s: string)
    ensures TakeBody(kind, s).Some? ==> Printable(TakeBody(kind, s).value.0)
  {
    hide Value, Span, Skip;
  }

  lemma {:induction false} ParsedIsPrintable(s: string)
    requires Parse(s).Some?
    ensures forall i :: 0 <= i < |Parse(s).value| ==> Printable(Parse(s).value[i])
    decreases |s|
  {
    hide Printable, TakeBody, TakeWord;
    if TakeWord(s).Some? {
      var (kind, s1) := TakeWord(s).value;
      WordLength(s);
      BodyPrintable(kind, s1);
      BodyLength(kind, s1);
      ParsedIsPrintable(TakeBody(kind, s1).value.1);
    }
  }

  /** A log reads back as it was written exactly if every record in it is printable: numbers
      that fit, node names that are one word, values without a newline. */
  lemma LogRoundTrip(log: seq<Record>)
    ensures Parse(PrintLog(log)) == Some(log) <==> forall i :: 0 <= i < |log| ==> Printable(log[i])
  {
    hide Parse, PrintLog, Printable;
    if forall i :: 0 <= i < |log| ==> Printable(log[i]) {
      PrintedLogReadsBack(log);
    }
    if Parse(PrintLog(log)).Some? { ParsedIsPrintable(PrintLog(log)); }
  }

  /** A node name of two words is read back as something else. */
  lemma NameOfTwoWords()
    ensures Parse(PrintLog([PropSeen(Prop(1, Name("a b")))])) != Some([PropSeen(Prop(1, Name("a b")))])
  {
    hide Parse, PrintLog;
    var log := [PropSeen(Prop(1, Name("a b")))];
    assert "a b"[1] == ' ';
    assert !Printable(log[0]);
    LogRoundTrip(log);
  }

  /** An acceptor whose log is on disk comes back as it was. */
  lemma RecoveryFromText(me: Name, acc: Acceptor)
    requires Recoverable(me, acc) && forall i :: 0 <= i < |acc.log| ==> Printable(acc.log[i])
    ensures Parse(PrintLog(acc.log)).Some? && Same(Replay(me, Parse(PrintLog(acc.log)).value), acc)
  {
    hide Parse, PrintLog, Printable, Replay;
    LogRoundTrip(acc.log);
  }

  // ----- recovery after any requests

  datatype Request =
    | Prepare(instance: nat, n: Prop)
    | Accept(n: Prop, v: string)
    | Decide(instance: nat, v: string)
    | CommitOld(instance: nat, v: string)

  /** The acceptor after a request; a decide request that fails its check has no effect. */
  function Serve(me: Name, acc: Acceptor, q: Request): Acceptor {
    match q
    case Prepare(instance, n) => OnPrepare(acc, instance, n).0
    case Accept(n, v) => OnAccept(acc, n, v).0
    case Decide(instance, v) => (match OnDecide(acc, me, instance, v) case Handled(a) => a case CheckFailed => acc)
    case CommitOld(instance, v) => Commit(acc, me, instance, v)
  }

  function ServeAll(me: Name, qs: seq<Request>): Acceptor {
    if qs == [] then NewAcceptor(me) else Serve(me, ServeAll(me, qs[..|qs| - 1]), qs[|qs| - 1])
  }

  predicate PrintableRequest(q: Request) {
    match q
    case Prepare(_, n) => Printable(PropSeen(n))
    case Accept(n, v) => Printable(Accepted(n, v))
    case Decide(instance, v) => Printable(Done(instance, v))
    case CommitOld(instance, v) => Printable(Done(instance, v))
  }

  ghost predicate Safe(me: Name, acc: Acceptor) {
    && Recoverable(me, acc) && AllBelong(LinePart, acc.va)
    && forall i :: 0 <= i < |acc.log| ==> Printable(acc.log[i])
  }

  lemma ServeSafe(me: Name, acc: Acceptor, q: Request)
    requires Safe(me, acc) && PrintableRequest(q)
    ensures Safe(me, Serve(me, acc, q))
  {
    hide Recoverable, AtLeast, Greater;
    match q {
      case Prepare(instance, n) => PrepareRecoverable(me, acc, instance, n);
      case Accept(n, v) => AcceptRecoverable(me, acc, n, v);
      case Decide(instance, v) => CommitRecoverable(me, acc, instance, v);
      case CommitOld(instance, v) => CommitRecoverable(me, acc, instance, v);
    }
  }

  lemma {:induction false} ServeAllSafe(me: Name, qs: seq<Request>)
    requires forall i :: 0 <= i < |qs| ==> PrintableRequest(qs[i])
    ensures Safe(me, ServeAll(me, qs))
  {
    hide Serve, PrintableRequest, Printable;
    if qs == [] {
      NewRecoverable(me);
    } else {
      ServeAllSafe(me, qs[..|qs| - 1]);
      ServeSafe(me, ServeAll(me, qs[..|qs| - 1]), qs[|qs| - 1]);
    }
  }

  /** Crash recovery: after any requests, reading the printed log gives the acceptor back. */
  lemma CrashRecovery(me: Name, qs: seq<Request>)
    requires forall i :: 0 <= i < |qs| ==> PrintableRequest(qs[i])
    ensures var acc := ServeAll(me, qs);
            Parse(PrintLog(acc.log)).Some? && Same(Replay(me, Parse(PrintLog(acc.log)).value), acc)
  {
    hide PrintableRequest, Parse, PrintLog, Replay, Same, ServeAll, Recoverable;
    ServeAllSafe(me, qs);
    RecoveryFromText(me, ServeAll(me, qs));
  }

  // ----- the program

  /** The log file; each method appends one record. */
  class LogFile {
    var text: string

    ghost predicate Holds(log: seq<Record>)
      reads this
    {
      text == PrintLog(log)
    }

    method LogInstance(instance: nat, v: string, ghost log: seq<Record>)
      requires Holds(log)
      modifies this
      ensures Holds(log + [Done(instance, v)])
    {
      PrintAppends(log, Done(instance, v));
      text := text + ("done" + (" " + (Dec(instance) + (" " + (v + "\n")))));
    }

    method LogProp(n: Prop, ghost log: seq<Record>)
      requires Holds(log)
      modifies this
      ensures Holds(log + [PropSeen(n)])
    {
      PrintAppends(log, PropSeen(n));
      text := text + ("propseen" + (" " + (Dec(n.n) + (" " + (n.m.text + "\n")))));
    }

    method LogAccept(n: Prop, v: string, ghost log: seq<Record>)
      requires Holds(log)
      modifies this
      ensures Holds(log + [Accepted(n, v)])
    {
      PrintAppends(log, Accepted(n, v));
      text := text + ("accepted" + (" " + (Dec(n.n) + (" " + (n.m.text + (" " + (v + "\n")))))));
    }
  }

  lemma {:induction false} PrintAppends(log: seq<Record>, r: Record)
    ensures PrintLog(log + [r]) == PrintLog(log) + Print(r)
  {
    hide Print;
    var more := log + [r];
    if log == [] {
      assert more[1..] == [];
    } else {
      assert more[1..] == log[1..] + [r];
      PrintAppends(log[1..], r);
      Assoc(Print(log[0]), PrintLog(log[1..]), Print(r));
    }
  }

  /** An input stream over a text. */
  class Stream {
    const text: string
    var pos: nat

    ghost predicate Valid()
      reads this
    {
      pos <= |text|
    }

    ghost function Left(): string
      reads this
      requires Valid()
    {
      text[pos..]
    }

    constructor (text: string)
      ensures this.text == text && pos == 0
    {
      this.text, pos := text, 0;
    }

    method SkipSpace()
      requires Valid()
      modifies this
      ensures Valid() && Left() == Skip(old(Left()))
    {
      while pos < |text| && Space(text[pos])
        invariant Valid() && Skip(Left()) == Skip(old(Left()))
      {
        assert Left()[1..] == text[pos + 1..];
        pos := pos + 1;
      }
    }

    /** Collects characters as long as they belong to the part. */
    method ReadSpan(part: Part) returns (w: string)
      requires Valid()
      modifies this
      ensures Valid() && w == Span(part, old(Left())) && Left() == old(Left())[|w|..]
    {
      var start := pos;
      while pos < |text| && Belongs(part, text[pos])
        invariant start <= pos <= |text| && forall i :: start <= i < pos ==> Belongs(part, text[i])
      {
        pos := pos + 1;
      }
      w := text[start..pos];
      assert text[start..] == w + text[pos..];
      SpanOf(part, w, text[pos..]);
    }

    method ReadWord() returns (w: string)
      requires Valid()
      modifies this
      ensures Valid()
      ensures TakeWord(old(Left())) == if w == "" then None else Some((w, Left()))
    {
      SkipSpace();
      w := ReadSpan(WordPart);
    }

    method ReadNumber() returns (ok: bool, n: nat)
      requires Valid()
      modifies this
      ensures Valid()
      ensures ok ==> TakeNumber(old(Left())) == Some((n, Left()))
      ensures !ok ==> TakeNumber(old(Left())) == None
    {
      SkipSpace();
      var ds := ReadSpan(NumberPart);
      n := NumberOf(ds);
      ok := ds != "" && n <= UINT_MAX;
    }

    /** One character is dropped, then a line is read. */
    method ReadLine() returns (ok: bool, l: string)
      requires Valid()
      modifies this
      ensures Valid()
      ensures ok ==> TakeLine(old(Left())) == Some((l, Left()))
      ensures !ok ==> TakeLine(old(Left())) == None
    {
      l := "";
      if pos + 1 >= |text| { return false, l; }
      ghost var whole := Left();
      pos := pos + 1;
      assert Left() == whole[1..];
      l := ReadSpan(LinePart);
      assert Left() == whole[|l| + 1..];
      if pos < |text| {
        pos := pos + 1;
        assert Left() == whole[|l| + 2..];
      }
      ok := true;
    }
  }

  method NumberOf(ds: string) returns (n: nat)
    requires AllBelong(NumberPart, ds)
    ensures n == Value(ds)
  {
    n := 0;
    for k := 0 to |ds|
      invariant AllBelong(NumberPart, ds[..k]) && n == Value(ds[..k])
    {
      assert ds[..k + 1][..k] == ds[..k];
      assert Belongs(NumberPart, ds[k]);
      n := 10 * n + (ds[k] as int - '0' as int);
    }
    assert ds[..|ds|] == ds;
  }

  /** Reads one record after its first word; `ok` is false where the text is not a record. */
  method ReadBody(from: Stream, kind: string) returns (ok: bool, r: Record)
    requires from.Valid()
    modifies from
    ensures from.Valid()
    ensures ok ==> TakeBody(kind, old(from.Left())) == Some((r, from.Left()))
    ensures !ok ==> TakeBody(kind, old(from.Left())) == None
  {
    hide TakeNumber, TakeWord, TakeLine;
    r := PropSeen(Prop(0, Name("")));
    if kind == "done" {
      var n, v;
      ok, n := from.ReadNumber();
      if ok {
        ok, v := from.ReadLine();
        r := Done(n, v);
      }
    } else if kind == "propseen" {
      var n;
      ok, n := ReadProp(from);
      r := PropSeen(n);
    } else if kind == "accepted" {
      var n, v;
      ok, n := ReadProp(from);
      if ok {
        ok, v := from.ReadLine();
        r := Accepted(n, v);
      }
    } else {
      ok := false;
    }
  }

  method ReadProp(from: Stream) returns (ok: bool, p: Prop)
    requires from.Valid()
    modifies from
    ensures from.Valid()
    ensures ok ==> TakeProp(old(from.Left())) == Some((p, from.Left()))
    ensures !ok ==> TakeProp(old(from.Left())) == None
  {
    hide TakeNumber, TakeWord;
    var n, m;
    p := Prop(0, Name(""));
    ok, n := from.ReadNumber();
    if ok {
      m := from.ReadWord();
      ok := m != "";
      p := Prop(n, Name(m));
    }
  }

  /** A new acceptor reads its log file. */
  method LogRead(file: string, acc: AcceptorServer) returns (ok: bool)
    requires acc.State() == NewAcceptor(acc.me)
    modifies acc
    ensures ok <==> Parse(file).Some?
    ensures ok ==> acc.State() == Replay(acc.me, Parse(file).value)
  {
    hide TakeWord, TakeBody, Redo;
    var from := new Stream(file);
    assert from.Left() == file;
    ghost var done: seq<Record> := [];
    if Parse(file).Some? { assert done + Parse(file).value == Parse(file).value; }
    var kind := from.ReadWord();
    ghost var left := file;
    while kind != ""
      invariant fresh(from) && from.Valid() && from.text == file
      invariant acc.State() == Replay(acc.me, done)
      invariant TakeWord(left) == if kind == "" then None else Some((kind, from.Left()))
      invariant Parse(file) == match Parse(left) case None => None case Some(more) => Some(done + more)
      decreases |left|
    {
      ghost var s1 := from.Left();
      WordLength(left);
      BodyLength(kind, s1);
      var r;
      ok, r := ReadBody(from, kind);
      if !ok { return; }
      ghost var s2 := from.Left();
      if Parse(s2).Some? { Assoc3(done, [r], Parse(s2).value); }
      ReplaySnoc(acc.me, done, r);
      acc.RedoRecord(r);
      done := done + [r];
      left := s2;
      kind := from.ReadWord();
    }
    assert done + [] == done;
    ok := true;
  }

  lemma Assoc3(a: seq<Record>, b: seq<Record>, c: seq<Record>)
    ensures a + (b + c) == (a + b) + c
  {}
}
