/** Run logs: one encoded entry per line, appended to a file and read back line by line. */
module RunLogs {
  import opened EditScripts
  import opened Ids
  import opened Seqs
  import opened Wrappers

  const NEWLINE: Byte := 10
  const CARRIAGE_RETURN: Byte := 13

  /** The scanner's line buffer: a line has to be shorter than this. */
  const MAX_LINE: nat := 10 * 1024 * 1024

  datatype ReadError = NotReadable | LineTooLong

  /** The encoder of log entries. */
  datatype Codec<!E> = Codec(encode: E -> Option<Text>, decode: Text -> Option<E>)

  /** What is asked of it: encoding round-trips, keeps to one line, and a text cut short,
      like the empty text, does not decode. */
  ghost predicate Lawful<E(!new)>(c: Codec<E>) {
    && c.decode([]).None?
    && forall e :: c.encode(e).Some? ==> OneLine(c, e, c.encode(e).value)
  }

  ghost predicate OneLine<E>(c: Codec<E>, e: E, b: Text) {
    && c.decode(b) == Some(e)
    && NEWLINE !in b
    && forall n :: 0 <= n < |b| ==> c.decode(b[..n]).None?
  }

  // ----- writing

  predicate Encodable<E>(c: Codec<E>, es: seq<E>) {
    forall i :: 0 <= i < |es| ==> c.encode(es[i]).Some?
  }

  /** The file that holds exactly these entries. */
  function FileOf<E>(c: Codec<E>, es: seq<E>): Text
    requires Encodable(c, es)
  {
    if es == [] then [] else FileOf(c, Front(es)) + c.encode(Last(es)).value + [NEWLINE]
  }

  lemma FileSnoc<E>(c: Codec<E>, es: seq<E>, e: E)
    requires Encodable(c, es) && c.encode(e).Some?
    ensures Encodable(c, es + [e])
    ensures FileOf(c, es + [e]) == FileOf(c, es) + c.encode(e).value + [NEWLINE]
  {
    assert Front(es + [e]) == es;
  }

  lemma {:induction false} FileConcat<E>(c: Codec<E>, es: seq<E>, fs: seq<E>)
    requires Encodable(c, es) && Encodable(c, fs)
    ensures Encodable(c, es + fs)
    ensures FileOf(c, es + fs) == FileOf(c, es) + FileOf(c, fs)
    decreases |fs|
  {
    if fs == [] {
      assert es + fs == es;
    } else {
      var all := es + Front(fs);
      FileConcat(c, es, Front(fs));
      FileSnoc(c, all, Last(fs));
      assert all + [Last(fs)] == es + fs;
      Reassociate(FileOf(c, es), FileOf(c, Front(fs)), c.encode(Last(fs)).value, [NEWLINE]);
    }
  }

  lemma Reassociate(a: Text, b: Text, d: Text, e: Text)
    ensures (a + b) + d + e == a + (b + d + e)
  {
  }

  lemma FileCons<E>(c: Codec<E>, es: seq<E>)
    requires Encodable(c, es) && es != []
    ensures FileOf(c, es) == c.encode(es[0]).value + [NEWLINE] + FileOf(c, es[1..])
  {
    assert es == [es[0]] + es[1..];
    FileConcat(c, [es[0]], es[1..]);
    assert Front([es[0]]) == [];
  }

  // ----- reading

  /** Where the next newline is, or the end of the text. */
  function LineEnd(b: Text): (n: nat)
    ensures n <= |b| && NEWLINE !in b[..n]
    ensures n < |b| ==> b[n] == NEWLINE
  {
    if b == [] || b[0] == NEWLINE then 0
    else
      var n := 1 + LineEnd(b[1..]);
      assert b[..n] == [b[0]] + b[1..][..n - 1];
      n
  }

  lemma {:induction false} LineEndIs(b: Text, n: nat)
    requires n <= |b| && NEWLINE !in b[..n] && (n < |b| ==> b[n] == NEWLINE)
    ensures LineEnd(b) == n
  {
    if n == 0 {
    } else {
      assert b[..n][0] == b[0];
      assert b[..n][1..] == b[1..][..n - 1];
      LineEndIs(b[1..], n - 1);
    }
  }

  /** The scanner drops one trailing carriage return. */
  function DropCR(line: Text): Text {
    if line != [] && Last(line) == CARRIAGE_RETURN then Front(line) else line
  }

  function After(b: Text): Text {
    if LineEnd(b) < |b| then b[LineEnd(b) + 1..] else []
  }

  function Decoded<E>(c: Codec<E>, line: Text): seq<E> {
    match c.decode(DropCR(line))
    case Some(e) => [e]
    case None => []
  }

  /** Reads line by line; lines that do not decode are skipped, a line that does not fit the
      buffer fails the whole read. */
  function Read<E>(c: Codec<E>, b: Text): Result<seq<E>, ReadError>
    decreases |b|
  {
    if b == [] then Ok([])
    else if LineEnd(b) >= MAX_LINE then Err(LineTooLong)
    else Prepend(Decoded(c, b[..LineEnd(b)]), Read(c, After(b)))
  }

  function Prepend<E>(es: seq<E>, r: Result<seq<E>, ReadError>): Result<seq<E>, ReadError> {
    match r
    case Ok(fs) => Ok(es + fs)
    case Err(err) => Err(err)
  }

  // ----- what appends put on disk

  /** Opening a log makes its directory and then the file; a write that fails may still have
      put some bytes into the file. */
  datatype WriteFault = NoFault | OpenFails(dirMade: bool) | WriteFails(written: nat)

  type Files = map<RunId, Text>

  /** The log files, and the logs whose descriptor is open. */
  datatype Disk = Disk(files: Files, open: set<RunId>)

  function Stored(files: Files, id: RunId): Text {
    if id in files then files[id] else []
  }

  function Written(data: Text, fault: WriteFault): Text {
    match fault
    case NoFault => data
    case OpenFails(_) => data
    case WriteFails(n) => if n < |data| then data[..n] else data
  }

  /** An open descriptor stays in use, so only the first append to a log can fail to open it. */
  predicate Opens(d: Disk, id: RunId, fault: WriteFault) {
    id in d.open || !fault.OpenFails?
  }

  function OpenLog(d: Disk, id: RunId): Disk {
    Disk(d.files[id := Stored(d.files, id)], d.open + {id})
  }

  /** One entry that does not encode keeps all of them out of the file. */
  function AppendTo<E>(c: Codec<E>, d: Disk, id: RunId, es: seq<E>, fault: WriteFault): Disk {
    if es == [] || !Opens(d, id, fault) then d
    else if !Encodable(c, es) then OpenLog(d, id)
    else
      var d' := OpenLog(d, id);
      d'.(files := d'.files[id := Stored(d.files, id) + Written(FileOf(c, es), fault)])
  }

  lemma PrependNothing<E>(r: Result<seq<E>, ReadError>)
    ensures Prepend([], r) == r
  {
    if r.Ok? {
      assert [] + r.value == r.value;
    }
  }

  lemma PrependTwice<E>(a: seq<E>, b: seq<E>, r: Result<seq<E>, ReadError>)
    ensures Prepend(a, Prepend(b, r)) == Prepend(a + b, r)
  {
    if r.Ok? {
      assert a + (b + r.value) == (a + b) + r.value;
    }
  }

  // ----- what is read back

  predicate Short<E>(c: Codec<E>, e: E) {
    c.encode(e).Some? && |c.encode(e).value| < MAX_LINE
  }

  predicate AllShort<E>(c: Codec<E>, es: seq<E>) {
    forall i :: 0 <= i < |es| ==> Short(c, es[i])
  }

  predicate EndsInCR<E>(c: Codec<E>, e: E) {
    c.encode(e).Some? && c.encode(e).value != [] && Last(c.encode(e).value) == CARRIAGE_RETURN
  }

  /** The entries whose line does not end in a carriage return. */
  function Surviving<E>(c: Codec<E>, es: seq<E>): seq<E> {
    if es == [] then [] else (if EndsInCR(c, es[0]) then [] else [es[0]]) + Surviving(c, es[1..])
  }

  lemma {:induction false} SurvivingIsAll<E>(c: Codec<E>, es: seq<E>)
    ensures |Surviving(c, es)| <= |es|
    ensures Surviving(c, es) == es <==> forall i :: 0 <= i < |es| ==> !EndsInCR(c, es[i])
    decreases |es|
  {
    if es == [] {
    } else {
      SurvivingIsAll(c, es[1..]);
      assert es == [es[0]] + es[1..];
      if !EndsInCR(c, es[0]) {
        assert Surviving(c, es)[1..] == Surviving(c, es[1..]);
      }
      if i :| 0 <= i < |es[1..]| && EndsInCR(c, es[1..][i]) {
        assert EndsInCR(c, es[i + 1]);
      }
    }
  }

  /** A complete line decodes to its entry, unless it loses its carriage return. */
  lemma CompleteLine<E(!new)>(c: Codec<E>, e: E, b: Text)
    requires Lawful(c) && c.encode(e).Some? && b == c.encode(e).value
    ensures b != [] && NEWLINE !in b
    ensures Decoded(c, b) == if EndsInCR(c, e) then [] else [e]
  {
    assert OneLine(c, e, b);
    if EndsInCR(c, e) {
      assert c.decode(b[..|b| - 1]).None?;
    }
  }

  /** A line cut short decodes to nothing. */
  lemma CutLine<E(!new)>(c: Codec<E>, e: E, b: Text, n: nat)
    requires Lawful(c) && c.encode(e).Some? && b == c.encode(e).value && n < |b|
    ensures NEWLINE !in b[..n] && Decoded(c, b[..n]) == []
  {
    assert OneLine(c, e, b);
    var line := b[..n];
    if line != [] && Last(line) == CARRIAGE_RETURN {
      assert Front(line) == b[..n - 1];
    }
  }

  /** Reading a text that starts with a complete line. */
  lemma ReadLine<E>(c: Codec<E>, line: Text, rest: Text)
    requires NEWLINE !in line
    ensures Read(c, line + [NEWLINE] + rest) ==
            if |line| >= MAX_LINE then Err(LineTooLong) else Prepend(Decoded(c, line), Read(c, rest))
  {
    var b := line + [NEWLINE] + rest;
    assert b[..|line|] == line;
    LineEndIs(b, |line|);
    assert b[|line| + 1..] == rest;
  }

  /** Reading a text without a newline. */
  lemma ReadTail<E>(c: Codec<E>, line: Text)
    requires NEWLINE !in line && |line| < MAX_LINE
    ensures Read(c, line) == Ok(if line == [] then [] else Decoded(c, line))
  {
    assert line[..|line|] == line;
    LineEndIs(line, |line|);
    if line != [] {
      assert After(line) == [];
      assert Decoded(c, line) + [] == Decoded(c, line);
    }
  }

  /** How many whole encodings the first `n` bytes of the entries' file contain. */
  function Whole<E>(c: Codec<E>, es: seq<E>, n: int): (k: nat)
    requires Encodable(c, es)
    ensures k <= |es|
    decreases |es|
  {
    if es == [] || n < |c.encode(es[0]).value| then 0
    else 1 + Whole(c, es[1..], n - |c.encode(es[0]).value| - 1)
  }

  lemma {:induction false} WholeIs<E>(c: Codec<E>, es: seq<E>, n: int)
    requires Encodable(c, es)
    ensures var k := Whole(c, es, n);
      && (k > 0 ==> |FileOf(c, es[..k])| <= n + 1)
      && (k < |es| ==> n + 1 < |FileOf(c, es[..k + 1])|)
    decreases |es|
  {
    if es == [] {
    } else {
      var size, k := |c.encode(es[0]).value|, Whole(c, es, n);
      if k < |es| {
        SizeCons(c, es, k + 1);
      }
      if n >= size {
        WholeIs(c, es[1..], n - size - 1);
        SizeCons(c, es, k);
      }
    }
  }

  lemma SizeCons<E>(c: Codec<E>, es: seq<E>, k: nat)
    requires Encodable(c, es) && 0 < k <= |es|
    ensures |FileOf(c, es[..k])| == |c.encode(es[0]).value| + 1 + |FileOf(c, es[1..][..k - 1])|
    ensures k == 1 ==> FileOf(c, es[1..][..k - 1]) == []
  {
    FileCons(c, es[..k]);
    assert es[..k][1..] == es[1..][..k - 1];
  }

  lemma {:induction false} ReadPrefix<E(!new)>(c: Codec<E>, es: seq<E>, n: nat)
    requires Lawful(c) && AllShort(c, es) && Encodable(c, es) && n <= |FileOf(c, es)|
    ensures Read(c, FileOf(c, es)[..n]) == Ok(Surviving(c, es[..Whole(c, es, n)]))
    decreases |es|
  {
    hide Lawful, Read, Surviving, Short;
    if es != [] {
      var b := c.encode(es[0]).value;
      if n <= |b| {
        ReadFirst(c, es, n);
      } else {
        FileCons(c, es);
        ReadPrefix(c, es[1..], n - |b| - 1);
        ReadPastFirst(c, es, n);
      }
    } else {
      ReadNothing(c);
    }
  }

  lemma ReadNothing<E(!new)>(c: Codec<E>)
    ensures Read(c, []) == Ok([]) && Surviving(c, []) == []
  {
  }

  lemma {:induction false} ReadFirst<E(!new)>(c: Codec<E>, es: seq<E>, n: nat)
    requires Lawful(c) && AllShort(c, es) && Encodable(c, es) && es != [] && n <= |c.encode(es[0]).value|
    ensures n <= |FileOf(c, es)|
    ensures Read(c, FileOf(c, es)[..n]) == Ok(Surviving(c, es[..Whole(c, es, n)]))
  {
    hide Lawful, Read;
    var b := c.encode(es[0]).value;
    assert Short(c, es[0]);
    FileCons(c, es);
    assert FileOf(c, es)[..n] == b[..n];
    CompleteLine(c, es[0], b);
    if n < |b| {
      CutLine(c, es[0], b, n);
      ReadTail(c, b[..n]);
    } else {
      assert b[..n] == b;
      ReadTail(c, b);
      NoneWhole(c, es[1..]);
      assert Whole(c, es, n) == 1;
      OneSurvives(c, es);
    }
  }

  lemma OneSurvives<E>(c: Codec<E>, es: seq<E>)
    requires es != []
    ensures Surviving(c, es[..1]) == if EndsInCR(c, es[0]) then [] else [es[0]]
  {
    assert es[..1][1..] == [];
  }

  lemma {:induction false} ReadPastFirst<E(!new)>(c: Codec<E>, es: seq<E>, n: nat)
    requires Lawful(c) && AllShort(c, es) && Encodable(c, es) && es != []
    requires |c.encode(es[0]).value| < n <= |FileOf(c, es)|
    requires var m := n - |c.encode(es[0]).value| - 1;
      m <= |FileOf(c, es[1..])| && Read(c, FileOf(c, es[1..])[..m]) == Ok(Surviving(c, es[1..][..Whole(c, es[1..], m)]))
    ensures Read(c, FileOf(c, es)[..n]) == Ok(Surviving(c, es[..Whole(c, es, n)]))
  {
    hide Lawful, Read;
    var b := c.encode(es[0]).value;
    var m := n - |b| - 1;
    assert Short(c, es[0]);
    CompleteLine(c, es[0], b);
    FileCons(c, es);
    assert FileOf(c, es)[..n] == b + [NEWLINE] + FileOf(c, es[1..])[..m];
    ReadLine(c, b, FileOf(c, es[1..])[..m]);
    var k := Whole(c, es[1..], m);
    assert es[..k + 1][1..] == es[1..][..k];
  }

  lemma NoneWhole<E>(c: Codec<E>, es: seq<E>)
    requires Encodable(c, es)
    ensures Whole(c, es, -1) == 0
  {
  }

  /** The log cut off after any `n` bytes reads as a prefix of the entries: exactly those
      whose encoding lies whole within the `n` bytes, with or without its newline. */
  lemma TruncatedLogReadsAsPrefix<E(!new)>(c: Codec<E>, es: seq<E>, n: nat)
    requires Lawful(c) && AllShort(c, es) && Encodable(c, es) && n <= |FileOf(c, es)|
    requires forall i :: 0 <= i < |es| ==> !EndsInCR(c, es[i])
    ensures exists k: nat :: CutAt(c, es, n, k) && Read(c, FileOf(c, es)[..n]) == Ok(es[..k])
  {
    var k := Whole(c, es, n);
    WholeIs(c, es, n);
    ReadPrefix(c, es, n);
    SurvivingIsAll(c, es[..k]);
    assert CutAt(c, es, n, k);
  }

  /** The first `n` bytes hold the first `k` encodings whole, and no more. */
  predicate CutAt<E>(c: Codec<E>, es: seq<E>, n: nat, k: nat)
    requires Encodable(c, es)
  {
    && k <= |es|
    && (k > 0 ==> |FileOf(c, es[..k])| <= n + 1)
    && (k < |es| ==> n + 1 < |FileOf(c, es[..k + 1])|)
  }

  lemma {:induction false} FileGrows<E>(c: Codec<E>, es: seq<E>, i: nat, j: nat)
    requires Encodable(c, es) && i <= j <= |es|
    ensures |FileOf(c, es[..i])| + (j - i) <= |FileOf(c, es[..j])|
    decreases j
  {
    if i == j {
    } else {
      FileGrows(c, es, i, j - 1);
      assert es[..j] == es[..j - 1] + [es[j - 1]];
      FileSnoc(c, es[..j - 1], es[j - 1]);
    }
  }

  /** A batch whose write fails part-way adds some first part of its entries, and costs none
      of the entries that were there. */
  lemma FailedWriteAddsAPrefix<E(!new)>(c: Codec<E>, es: seq<E>, batch: seq<E>, written: nat)
    requires Lawful(c) && AllShort(c, es + batch) && Encodable(c, es) && Encodable(c, batch)
    requires forall i :: 0 <= i < |es + batch| ==> !EndsInCR(c, (es + batch)[i])
    ensures var data := Written(FileOf(c, batch), WriteFails(written));
      exists k: nat :: k <= |batch| && Read(c, FileOf(c, es) + data) == Ok(es + batch[..k])
  {
    hide Lawful, Read, FileOf, AllShort, EndsInCR;
    var all := es + batch;
    FileConcat(c, es, batch);
    var data := Written(FileOf(c, batch), WriteFails(written));
    var n := |FileOf(c, es)| + |data|;
    TakePast(FileOf(c, es), FileOf(c, batch), data);
    TruncatedLogReadsAsPrefix(c, all, n);
    var m: nat :| CutAt(c, all, n, m) && Read(c, FileOf(c, all)[..n]) == Ok(all[..m]);
    assert all[..|es|] == es;
    if m < |es| {
      FileGrows(c, all, m + 1, |es|);
    } else {
      assert all[..m] == es + batch[..m - |es|];
    }
  }

  lemma TakePast(a: Text, b: Text, data: Text)
    requires data <= b
    ensures a + data == (a + b)[..|a| + |data|]
  {
  }

  lemma {:induction false} ReadWhole<E(!new)>(c: Codec<E>, es: seq<E>)
    requires Lawful(c) && Encodable(c, es)
    ensures Read(c, FileOf(c, es)) == if AllShort(c, es) then Ok(Surviving(c, es)) else Err(LineTooLong)
    decreases |es|
  {
    if es == [] {
    } else {
      var b := c.encode(es[0]).value;
      CompleteLine(c, es[0], b);
      FileCons(c, es);
      ReadWhole(c, es[1..]);
      ReadLine(c, b, FileOf(c, es[1..]));
      AllShortCons(c, es);
    }
  }

  lemma AllShortCons<E>(c: Codec<E>, es: seq<E>)
    requires es != []
    ensures AllShort(c, es) <==> Short(c, es[0]) && AllShort(c, es[1..])
  {
    assert es == [es[0]] + es[1..];
  }

  /** A log reads back as written exactly when every line fits the buffer and none ends in a
      carriage return. */
  lemma {:induction false} ReadsBackExactlyWhen<E(!new)>(c: Codec<E>, es: seq<E>)
    requires Lawful(c) && Encodable(c, es)
    ensures Read(c, FileOf(c, es)) == Ok(es) <==>
            forall i :: 0 <= i < |es| ==>
              var line := c.encode(es[i]).value;
              |line| < 10 * 1024 * 1024 && (line == [] || line[|line| - 1] != 13)
  {
    forall i | 0 <= i < |es|
      ensures var line := c.encode(es[i]).value;
        Short(c, es[i]) && !EndsInCR(c, es[i]) <==> |line| < 10 * 1024 * 1024 && (line == [] || line[|line| - 1] != 13)
    {
    }
    ReadWhole(c, es);
    SurvivingIsAll(c, es);
  }

  /** A codec whose lines end in a carriage return. */
  function CRCodec(): Codec<bool> {
    Codec((u: bool) => if u then Some([125, CARRIAGE_RETURN]) else None,
          (b: Text) => if b == [125, CARRIAGE_RETURN] then Some(true) else None)
  }

  /** Without the second condition an entry can be lost. */
  lemma CarriageReturnLosesAnEntry()
    ensures Lawful(CRCodec()) && Encodable(CRCodec(), [true])
    ensures Read(CRCodec(), FileOf(CRCodec(), [true])) == Ok([])
  {
    var c := CRCodec();
    var b: Text := [125, CARRIAGE_RETURN];
    assert c.encode(true).value == b;
    forall e: bool | c.encode(e).Some?
      ensures OneLine(c, e, c.encode(e).value)
    {
    }
    ReadWhole(c, [true]);
    assert Short(c, true);
    assert EndsInCR(c, true);
    assert [true][1..] == [];
    assert Surviving(c, [true]) == [];
  }
}
