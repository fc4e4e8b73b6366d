/** What a log reads back after any mix of appends, some of whose writes are torn. */
module TornLogs {
  import opened EditScripts
  import opened Ids
  import opened RunLogs
  import opened Seqs
  import opened Wrappers

  // ----- torn writes

  /** What one write puts into the file: whole lines, and then the first part of a line, or
      nothing. */
  datatype Landed<E> = Landed(whole: seq<E>, torn: Text)

  /** The first `n` bytes of the entries' file. */
  function Cut<E>(c: Codec<E>, es: seq<E>, n: nat): (r: Landed<E>)
    requires Encodable(c, es)
    ensures Encodable(c, r.whole)
    decreases |es|
  {
    if es == [] then Landed([], [])
    else
      var b := c.encode(es[0]).value;
      if n <= |b| then Landed([], b[..n])
      else
        var rest := Cut(c, es[1..], n - |b| - 1);
        Landed([es[0]] + rest.whole, rest.torn)
  }

  /** A first part of an encoding, which may be all of it. */
  ghost predicate IsPiece<E(!new)>(c: Codec<E>, p: Text) {
    p != [] && exists e :: c.encode(e).Some? && p <= c.encode(e).value
  }

  /** `r` is what the first `n` bytes of `file` put on disk. */
  ghost predicate IsCut<E(!new)>(c: Codec<E>, file: Text, n: nat, r: Landed<E>)
    requires Encodable(c, r.whole)
  {
    && FileOf(c, r.whole) + r.torn == (if n < |file| then file[..n] else file)
    && (r.torn == [] || IsPiece(c, r.torn))
  }

  lemma CutInFirst<E(!new)>(c: Codec<E>, es: seq<E>, n: nat)
    requires Encodable(c, es) && es != [] && n <= |c.encode(es[0]).value|
    ensures IsCut(c, FileOf(c, es), n, Landed([], c.encode(es[0]).value[..n])) && n < |FileOf(c, es)|
  {
    var b := c.encode(es[0]).value;
    FileCons(c, es);
    assert FileOf(c, es)[..n] == b[..n];
    assert b[..n] <= b;
    assert FileOf<E>(c, []) == [];
  }

  lemma {:induction false} CutPastFirst<E(!new)>(c: Codec<E>, es: seq<E>, n: nat, rest: Landed<E>)
    requires Encodable(c, es) && es != [] && n > |c.encode(es[0]).value| && Encodable(c, rest.whole)
    requires IsCut(c, FileOf(c, es[1..]), n - |c.encode(es[0]).value| - 1, rest)
    ensures IsCut(c, FileOf(c, es), n, Landed([es[0]] + rest.whole, rest.torn))
  {
    hide IsPiece, FileOf;
    var line, m := c.encode(es[0]).value + [NEWLINE], n - |c.encode(es[0]).value| - 1;
    var whole := [es[0]] + rest.whole;
    FileCons(c, es);
    FileCons(c, whole);
    assert whole[1..] == rest.whole;
    CutSplits(line, FileOf(c, es[1..]), FileOf(c, rest.whole), rest.torn, m);
  }

  lemma CutSplits(line: Text, file: Text, whole: Text, torn: Text, m: nat)
    requires whole + torn == if m < |file| then file[..m] else file
    ensures var n := |line| + m;
      line + whole + torn == if n < |line + file| then (line + file)[..n] else line + file
  {
    assert line + whole + torn == line + (whole + torn);
  }

  lemma {:induction false} CutIs<E(!new)>(c: Codec<E>, es: seq<E>, n: nat)
    requires Encodable(c, es)
    ensures IsCut(c, FileOf(c, es), n, Cut(c, es, n))
    ensures n >= |FileOf(c, es)| ==> Cut(c, es, n) == Landed(es, [])
    decreases |es|
  {
    hide IsCut, IsPiece;
    if es == [] {
      CutNothing(c, n);
    } else {
      var b := c.encode(es[0]).value;
      if n <= |b| {
        CutInFirst(c, es, n);
      } else {
        FileCons(c, es);
        CutIs(c, es[1..], n - |b| - 1);
        CutPastFirst(c, es, n, Cut(c, es[1..], n - |b| - 1));
      }
    }
  }

  lemma CutNothing<E(!new)>(c: Codec<E>, n: nat)
    ensures FileOf<E>(c, []) == [] && IsCut(c, [], n, Landed([], []))
  {
  }

  // ----- the file after several writes

  predicate AllEncodable<E>(c: Codec<E>, ws: seq<Landed<E>>) {
    forall i :: 0 <= i < |ws| ==> Encodable(c, ws[i].whole)
  }

  ghost predicate AllPieces<E(!new)>(c: Codec<E>, ws: seq<Landed<E>>) {
    forall i :: 0 <= i < |ws| ==> ws[i].torn == [] || IsPiece(c, ws[i].torn)
  }

  function Content<E>(c: Codec<E>, ws: seq<Landed<E>>): Text
    requires AllEncodable(c, ws)
  {
    if ws == [] then [] else Content(c, Front(ws)) + FileOf(c, Last(ws).whole) + Last(ws).torn
  }

  function Join(pieces: seq<Text>): Text {
    if pieces == [] then [] else Join(Front(pieces)) + Last(pieces)
  }

  /** The torn parts since the last newline. */
  function Tail<E>(ws: seq<Landed<E>>): seq<Text> {
    if ws == [] then []
    else (if Last(ws).whole == [] then Tail(Front(ws)) else []) + (if Last(ws).torn == [] then [] else [Last(ws).torn])
  }

  /** The entries whose lines come back.  A line that begins with torn parts of earlier
      writes is lost with the entry that ends it. */
  function ReadBack<E>(c: Codec<E>, ws: seq<Landed<E>>): seq<E> {
    if ws == [] then []
    else
      var whole := Last(ws).whole;
      ReadBack(c, Front(ws)) +
      if whole == [] || Tail(Front(ws)) == [] then Surviving(c, whole) else Surviving(c, whole[1..])
  }

  /** Every finished line fits the scanner's buffer. */
  predicate LinesFit<E>(c: Codec<E>, ws: seq<Landed<E>>)
    requires AllEncodable(c, ws)
  {
    ws == [] ||
    (&& LinesFit(c, Front(ws))
     && (Last(ws).whole == [] ||
         (&& |Join(Tail(Front(ws)))| + |c.encode(Last(ws).whole[0]).value| < MAX_LINE
          && AllShort(c, Last(ws).whole[1..]))))
  }

  /** Parts of encodings, run together on one line, do not decode. */
  ghost predicate NeverJoins<E(!new)>(c: Codec<E>) {
    forall pieces: seq<Text> :: |pieces| >= 2 && (forall i :: 0 <= i < |pieces| ==> IsPiece(c, pieces[i])) ==>
      Decoded(c, Join(pieces)) == []
  }

  lemma {:induction false} TailIsPieces<E(!new)>(c: Codec<E>, ws: seq<Landed<E>>)
    requires AllPieces(c, ws)
    ensures forall i :: 0 <= i < |Tail(ws)| ==> IsPiece(c, Tail(ws)[i])
    decreases |ws|
  {
    if ws == [] {
    } else {
      TailIsPieces(c, Front(ws));
    }
  }

  lemma PieceHasNoNewline<E(!new)>(c: Codec<E>, p: Text)
    requires Lawful(c) && IsPiece(c, p)
    ensures NEWLINE !in p
  {
    var e :| c.encode(e).Some? && p <= c.encode(e).value;
    assert OneLine(c, e, c.encode(e).value);
    assert c.encode(e).value[..|p|] == p;
  }

  lemma {:induction false} JoinHasNoNewline<E(!new)>(c: Codec<E>, pieces: seq<Text>)
    requires Lawful(c) && forall i :: 0 <= i < |pieces| ==> IsPiece(c, pieces[i])
    ensures NEWLINE !in Join(pieces)
    ensures pieces != [] ==> Join(pieces) != []
    decreases |pieces|
  {
    hide Lawful, IsPiece;
    if pieces == [] {
    } else {
      assert IsPiece(c, Last(pieces));
      PieceHasNoNewline(c, Last(pieces));
      PieceIsNotEmpty(c, Last(pieces));
      JoinHasNoNewline(c, Front(pieces));
    }
  }

  lemma PieceIsNotEmpty<E(!new)>(c: Codec<E>, p: Text)
    requires IsPiece(c, p)
    ensures p != []
  {
  }

  // ----- reading it

  /** Up to its last newline the file is a text that reads on its own. */
  lemma {:induction false} ReadAppend<E>(c: Codec<E>, a: Text, b: Text)
    requires a == [] || Last(a) == NEWLINE
    ensures Read(c, a + b) == match Read(c, a) case Ok(es) => Prepend(es, Read(c, b)) case Err(err) => Err(err)
    decreases |a|
  {
    if a == [] {
      assert a + b == b;
      PrependNothing(Read(c, b));
    } else {
      var n := LineEnd(a);
      NewlineAhead(a);
      var line, rest := a[..n], a[n + 1..];
      assert a == line + [NEWLINE] + rest;
      assert a + b == line + [NEWLINE] + (rest + b);
      ReadLine(c, line, rest);
      ReadLine(c, line, rest + b);
      assert rest == [] || Last(rest) == Last(a);
      ReadAppend(c, rest, b);
      if Read(c, rest).Ok? {
        PrependTwice(Decoded(c, line), Read(c, rest).value, Read(c, b));
      }
    }
  }

  lemma NewlineAhead(a: Text)
    requires a != [] && Last(a) == NEWLINE
    ensures LineEnd(a) < |a|
  {
    assert a[..|a|] == a && a[|a| - 1] == NEWLINE;
  }

  /** The file without its unfinished last line. */
  function Body<E>(c: Codec<E>, ws: seq<Landed<E>>): Text
    requires AllEncodable(c, ws)
  {
    if ws == [] then []
    else if Last(ws).whole == [] then Body(c, Front(ws))
    else Content(c, Front(ws)) + FileOf(c, Last(ws).whole)
  }

  lemma {:induction false} ContentIsBodyAndTail<E>(c: Codec<E>, ws: seq<Landed<E>>)
    requires AllEncodable(c, ws)
    ensures Content(c, ws) == Body(c, ws) + Join(Tail(ws))
    ensures Body(c, ws) == [] || Last(Body(c, ws)) == NEWLINE
    decreases |ws|
  {
    hide *;
    JoinNothing();
    if ws == [] {
      NothingWritten(c);
    } else {
      Unfold(c, ws);
      ContentIsBodyAndTail(c, Front(ws));
      var before := if Last(ws).whole == [] then Tail(Front(ws)) else [];
      JoinSnoc(before, Last(ws).torn);
      if Last(ws).whole == [] {
        FileNothing(c);
        ThreeParts(Body(c, Front(ws)), Join(before), Last(ws).torn);
      } else {
        FileEndsLine(c, Last(ws).whole);
        LastOfSum(Content(c, Front(ws)), FileOf(c, Last(ws).whole));
      }
    }
  }

  lemma NothingWritten<E>(c: Codec<E>)
    ensures Content<E>(c, []) == [] && Body<E>(c, []) == [] && Tail<E>([]) == []
  {
  }

  lemma Unfold<E>(c: Codec<E>, ws: seq<Landed<E>>)
    requires AllEncodable(c, ws) && ws != []
    ensures |Front(ws)| < |ws| && AllEncodable(c, Front(ws)) && Encodable(c, Last(ws).whole)
    ensures Content(c, ws) == Content(c, Front(ws)) + FileOf(c, Last(ws).whole) + Last(ws).torn
    ensures Body(c, ws) == if Last(ws).whole == [] then Body(c, Front(ws)) else Content(c, Front(ws)) + FileOf(c, Last(ws).whole)
    ensures Tail(ws) == (if Last(ws).whole == [] then Tail(Front(ws)) else []) +
                        (if Last(ws).torn == [] then [] else [Last(ws).torn])
  {
  }

  lemma LastOfSum(a: Text, b: Text)
    requires b != []
    ensures a + b != [] && Last(a + b) == Last(b)
  {
  }

  lemma Regroup(a: Text, b: Text, d: Text)
    ensures a + b + d == a + (b + d)
  {
  }

  lemma FileNothing<E>(c: Codec<E>)
    ensures FileOf<E>(c, []) == []
  {
  }

  lemma ThreeParts(a: Text, b: Text, p: Text)
    ensures (a + b) + [] + p == a + (b + p)
  {
  }

  lemma JoinSnoc(pieces: seq<Text>, p: Text)
    ensures Join(pieces + (if p == [] then [] else [p])) == Join(pieces) + p
  {
    if p == [] {
      assert pieces + [] == pieces;
    } else {
      assert Front(pieces + [p]) == pieces;
    }
  }

  lemma JoinNothing()
    ensures Join([]) == []
  {
  }

  lemma FileEndsLine<E>(c: Codec<E>, es: seq<E>)
    requires Encodable(c, es) && es != []
    ensures FileOf(c, es) != [] && Last(FileOf(c, es)) == NEWLINE
  {
  }

  /** A line that begins with torn parts does not decode. */
  lemma {:induction false} JoinedLine<E(!new)>(c: Codec<E>, pieces: seq<Text>, e: E)
    requires Lawful(c) && NeverJoins(c) && c.encode(e).Some?
    requires forall i :: 0 <= i < |pieces| ==> IsPiece(c, pieces[i])
    ensures var line := Join(pieces) + c.encode(e).value;
      && NEWLINE !in line
      && Decoded(c, line) == if pieces != [] || EndsInCR(c, e) then [] else [e]
  {
    var first := c.encode(e).value;
    CompleteLine(c, e, first);
    JoinHasNoNewline(c, pieces);
    WholeIsPiece(c, e);
    hide Lawful, IsPiece, Decoded, EndsInCR;
    if pieces == [] {
      JoinNothing();
      assert [] + first == first;
    } else {
      var all := pieces + [first];
      JoinSnoc(pieces, first);
      assert forall i :: 0 <= i < |all| ==> IsPiece(c, all[i]);
      assert Decoded(c, Join(all)) == [];
    }
  }

  lemma WholeIsPiece<E(!new)>(c: Codec<E>, e: E)
    requires c.encode(e).Some?
    ensures c.encode(e).value != [] ==> IsPiece(c, c.encode(e).value)
  {
  }

  /** Lines added behind torn parts. */
  lemma {:induction false} ReadJoined<E(!new)>(c: Codec<E>, pieces: seq<Text>, es: seq<E>)
    requires Lawful(c) && NeverJoins(c) && Encodable(c, es) && es != []
    requires forall i :: 0 <= i < |pieces| ==> IsPiece(c, pieces[i])
    ensures Read(c, Join(pieces) + FileOf(c, es)) ==
            if |Join(pieces)| + |c.encode(es[0]).value| >= MAX_LINE || !AllShort(c, es[1..]) then Err(LineTooLong)
            else Ok(if pieces == [] then Surviving(c, es) else Surviving(c, es[1..]))
  {
    hide Lawful, NeverJoins, Read, Join, IsPiece, AllShort, Decoded, EndsInCR;
    var first, rest := c.encode(es[0]).value, FileOf(c, es[1..]);
    var line := Join(pieces) + first;
    FileCons(c, es);
    hide FileOf;
    JoinedLine(c, pieces, es[0]);
    assert Join(pieces) + FileOf(c, es) == line + [NEWLINE] + rest;
    ReadLine(c, line, rest);
    ReadWhole(c, es[1..]);
    PrependNothing(Read(c, rest));
  }

  lemma {:induction false} ReadBody<E(!new)>(c: Codec<E>, ws: seq<Landed<E>>)
    requires Lawful(c) && NeverJoins(c) && AllEncodable(c, ws) && AllPieces(c, ws)
    ensures Read(c, Body(c, ws)) == if LinesFit(c, ws) then Ok(ReadBack(c, ws)) else Err(LineTooLong)
    decreases |ws|
  {
    hide Lawful, NeverJoins;
    if ws == [] {
    } else {
      ReadBody(c, Front(ws));
      ReadBodySnoc(c, ws);
    }
  }

  lemma {:induction false} ReadBodySnoc<E(!new)>(c: Codec<E>, ws: seq<Landed<E>>)
    requires Lawful(c) && NeverJoins(c) && AllEncodable(c, ws) && AllPieces(c, ws) && ws != []
    requires Read(c, Body(c, Front(ws))) == if LinesFit(c, Front(ws)) then Ok(ReadBack(c, Front(ws))) else Err(LineTooLong)
    ensures Read(c, Body(c, ws)) == if LinesFit(c, ws) then Ok(ReadBack(c, ws)) else Err(LineTooLong)
  {
    hide Lawful, NeverJoins, Read, FileOf, Tail, Join, Surviving, AllShort, Body, Content, IsPiece;
    var front, w := Front(ws), Last(ws);
    if w.whole == [] {
      SurvivingNothing(c);
      Unfold(c, ws);
      assert ReadBack(c, front) + [] == ReadBack(c, front);
    } else {
      ContentIsBodyAndTail(c, front);
      TailIsPieces(c, front);
      ReadJoined(c, Tail(front), w.whole);
      ReadAppend(c, Body(c, front), Join(Tail(front)) + FileOf(c, w.whole));
      Unfold(c, ws);
      Regroup(Body(c, front), Join(Tail(front)), FileOf(c, w.whole));
    }
  }

  lemma SurvivingNothing<E>(c: Codec<E>)
    ensures Surviving<E>(c, []) == []
  {
  }

  /** What the unfinished last line yields: its entry, if it is a single whole encoding that
      lacks only its newline. */
  function AtEnd<E>(c: Codec<E>, tail: seq<Text>): seq<E> {
    if |tail| == 1 then Decoded(c, tail[0]) else []
  }

  lemma LastLineYieldsItsEntry<E(!new)>(c: Codec<E>, p: Text, e: E)
    requires Lawful(c) && c.encode(e).Some? && p != [] && p <= c.encode(e).value
    ensures AtEnd(c, [p]) == if p == c.encode(e).value && !EndsInCR(c, e) then [e] else []
  {
    var b := c.encode(e).value;
    if |p| < |b| {
      assert p == b[..|p|];
      CutLine(c, e, b, |p|);
    } else {
      assert p == b[..|p|] == b;
      CompleteLine(c, e, b);
    }
  }

  lemma LongTail<E>(c: Codec<E>, line: Text)
    requires NEWLINE !in line && |line| >= MAX_LINE
    ensures Read(c, line) == Err(LineTooLong)
  {
    assert line[..|line|] == line;
    LineEndIs(line, |line|);
  }

  lemma ReadUnfinished<E(!new)>(c: Codec<E>, pieces: seq<Text>)
    requires Lawful(c) && NeverJoins(c)
    requires forall i :: 0 <= i < |pieces| ==> IsPiece(c, pieces[i])
    ensures Read(c, Join(pieces)) == if |Join(pieces)| >= MAX_LINE then Err(LineTooLong) else Ok(AtEnd(c, pieces))
  {
    JoinHasNoNewline(c, pieces);
    hide Lawful, Read, IsPiece;
    if |Join(pieces)| >= MAX_LINE {
      LongTail(c, Join(pieces));
    } else {
      ReadTail(c, Join(pieces));
      if |pieces| == 1 {
        assert Front(pieces) == [];
        assert Join(pieces) == [] + pieces[0] == pieces[0];
      }
    }
  }

  /** A file built by any writes, whole or torn, reads as the entries whose lines survive,
      unless some line, joined ones included, does not fit the scanner's buffer. */
  lemma TornWritesReadBack<E(!new)>(c: Codec<E>, ws: seq<Landed<E>>)
    requires Lawful(c) && NeverJoins(c) && AllEncodable(c, ws) && AllPieces(c, ws)
    ensures Read(c, Content(c, ws)) ==
            if LinesFit(c, ws) && |Join(Tail(ws))| < MAX_LINE then Ok(ReadBack(c, ws) + AtEnd(c, Tail(ws)))
            else Err(LineTooLong)
  {
    hide Lawful, NeverJoins, Read, Tail, Join, AtEnd, Body, Content;
    ContentIsBodyAndTail(c, ws);
    TailIsPieces(c, ws);
    ReadBody(c, ws);
    ReadUnfinished(c, Tail(ws));
    ReadAppend(c, Body(c, ws), Join(Tail(ws)));
  }

  // ----- any mix of calls

  datatype Call<E> =
    | Append(id: RunId, entries: seq<E>, fault: WriteFault)   // AppendLogs, or AppendLog with one entry
    | Close(id: RunId)
    | Delete(id: RunId)

  function AfterCall<E>(c: Codec<E>, d: Disk, call: Call<E>): Disk {
    match call
    case Append(id, es, fault) => AppendTo(c, d, id, es, fault)
    case Close(id) => d.(open := d.open - {id})
    case Delete(id) => Disk(d.files - {id}, d.open - {id})
  }

  function AfterCalls<E>(c: Codec<E>, calls: seq<Call<E>>): Disk {
    if calls == [] then Disk(map[], {}) else AfterCall(c, AfterCalls(c, Front(calls)), Last(calls))
  }

  /** What an append's write puts into the log. */
  function Lands<E>(c: Codec<E>, es: seq<E>, fault: WriteFault): (r: Landed<E>)
    requires Encodable(c, es)
    ensures Encodable(c, r.whole)
  {
    if fault.WriteFails? then Cut(c, es, fault.written) else Landed(es, [])
  }

  /** The writes that have reached log `id` since it was last deleted. */
  function History<E>(c: Codec<E>, calls: seq<Call<E>>, id: RunId): (ws: seq<Landed<E>>)
    ensures AllEncodable(c, ws)
  {
    if calls == [] then []
    else
      var before, call := History(c, Front(calls), id), Last(calls);
      if call.id != id || call.Close? then before
      else if call.Delete? then []
      else if call.entries == [] || !Encodable(c, call.entries) || !Opens(AfterCalls(c, Front(calls)), id, call.fault) then before
      else before + [Lands(c, call.entries, call.fault)]
  }

  lemma ContentSnoc<E>(c: Codec<E>, ws: seq<Landed<E>>, w: Landed<E>)
    requires AllEncodable(c, ws) && Encodable(c, w.whole)
    ensures AllEncodable(c, ws + [w])
    ensures Content(c, ws + [w]) == Content(c, ws) + FileOf(c, w.whole) + w.torn
  {
    assert Front(ws + [w]) == ws;
  }

  lemma LandsWritten<E(!new)>(c: Codec<E>, es: seq<E>, fault: WriteFault)
    requires Encodable(c, es)
    ensures var w := Lands(c, es, fault);
      && FileOf(c, w.whole) + w.torn == Written(FileOf(c, es), fault)
      && (w.torn == [] || IsPiece(c, w.torn))
  {
    if fault.WriteFails? {
      CutIs(c, es, fault.written);
    }
  }

  lemma {:induction false} FilesHoldTheHistory<E(!new)>(c: Codec<E>, calls: seq<Call<E>>, id: RunId)
    ensures Stored(AfterCalls(c, calls).files, id) == Content(c, History(c, calls, id))
    ensures AllPieces(c, History(c, calls, id))
    decreases |calls|
  {
    if calls == [] {
    } else {
      FilesHoldTheHistory(c, Front(calls), id);
      CallLands(c, calls, id);
    }
  }

  /** The last call is an append whose write reaches the log. */
  predicate Reaches<E>(c: Codec<E>, calls: seq<Call<E>>, id: RunId)
    requires calls != []
  {
    var call := Last(calls);
    call.id == id && call.Append? && call.entries != [] && Encodable(c, call.entries) &&
    Opens(AfterCalls(c, Front(calls)), id, call.fault)
  }

  lemma HistorySnoc<E>(c: Codec<E>, calls: seq<Call<E>>, id: RunId)
    requires calls != []
    ensures var before, call := History(c, Front(calls), id), Last(calls);
      History(c, calls, id) ==
      if Reaches(c, calls, id) then before + [Lands(c, call.entries, call.fault)]
      else if call.id == id && call.Delete? then []
      else before
  {
  }

  lemma StoredSnoc<E>(c: Codec<E>, calls: seq<Call<E>>, id: RunId)
    requires calls != []
    ensures var before, call := Stored(AfterCalls(c, Front(calls)).files, id), Last(calls);
      Stored(AfterCalls(c, calls).files, id) ==
      if Reaches(c, calls, id) then before + Written(FileOf(c, call.entries), call.fault)
      else if call.id == id && call.Delete? then []
      else before
  {
    hide FileOf, Written, Encodable;
  }

  lemma {:induction false} CallLands<E(!new)>(c: Codec<E>, calls: seq<Call<E>>, id: RunId)
    requires calls != []
    requires Stored(AfterCalls(c, Front(calls)).files, id) == Content(c, History(c, Front(calls), id))
    requires AllPieces(c, History(c, Front(calls), id))
    ensures Stored(AfterCalls(c, calls).files, id) == Content(c, History(c, calls, id))
    ensures AllPieces(c, History(c, calls, id))
  {
    HistorySnoc(c, calls, id);
    StoredSnoc(c, calls, id);
    ContentNothing(c);
    hide *;
    if Reaches(c, calls, id) {
      WhatReaches(c, calls, id);
      WriteLands(c, History(c, Front(calls), id), Last(calls).entries, Last(calls).fault);
    }
  }

  lemma ContentNothing<E(!new)>(c: Codec<E>)
    ensures Content<E>(c, []) == [] && AllPieces<E>(c, [])
  {
  }

  lemma WhatReaches<E>(c: Codec<E>, calls: seq<Call<E>>, id: RunId)
    requires calls != [] && Reaches(c, calls, id)
    ensures Last(calls).Append? && Encodable(c, Last(calls).entries)
  {
  }

  lemma WriteLands<E(!new)>(c: Codec<E>, ws: seq<Landed<E>>, es: seq<E>, fault: WriteFault)
    requires AllEncodable(c, ws) && AllPieces(c, ws) && Encodable(c, es)
    ensures var ws' := ws + [Lands(c, es, fault)];
      && AllEncodable(c, ws') && AllPieces(c, ws')
      && Content(c, ws') == Content(c, ws) + Written(FileOf(c, es), fault)
  {
    hide Encodable, IsPiece, Lands, Written, FileOf, Content;
    var w := Lands(c, es, fault);
    LandsWritten(c, es, fault);
    ContentSnoc(c, ws, w);
    assert Content(c, ws) + FileOf(c, w.whole) + w.torn == Content(c, ws) + (FileOf(c, w.whole) + w.torn);
  }

  /** After any mix of appends, closings and deletions of any logs, with any failures to open,
      encode or write, a log reads back as the entries whose lines survived, in order. */
  lemma {:induction false} MixedCallsReadBack<E(!new)>(c: Codec<E>, calls: seq<Call<E>>, id: RunId)
    requires Lawful(c) && NeverJoins(c)
    ensures var ws := History(c, calls, id);
      Read(c, Stored(AfterCalls(c, calls).files, id)) ==
      if LinesFit(c, ws) && |Join(Tail(ws))| < MAX_LINE then Ok(ReadBack(c, ws) + AtEnd(c, Tail(ws))) else Err(LineTooLong)
  {
    FilesHoldTheHistory(c, calls, id);
    TornWritesReadBack(c, History(c, calls, id));
  }

  // ----- when no write is torn

  /** All the entries of the writes. */
  function Wholes<E>(ws: seq<Landed<E>>): seq<E> {
    if ws == [] then [] else Wholes(Front(ws)) + Last(ws).whole
  }

  lemma {:induction false} WholeContent<E>(c: Codec<E>, ws: seq<Landed<E>>)
    requires AllEncodable(c, ws) && forall i :: 0 <= i < |ws| ==> ws[i].torn == []
    ensures Encodable(c, Wholes(ws)) && Content(c, ws) == FileOf(c, Wholes(ws))
    decreases |ws|
  {
    if ws == [] {
    } else {
      WholeContent(c, Front(ws));
      FileConcat(c, Wholes(Front(ws)), Last(ws).whole);
    }
  }

  lemma {:induction false} NothingIsTorn<E>(c: Codec<E>, calls: seq<Call<E>>, id: RunId)
    requires forall i :: 0 <= i < |calls| && calls[i].Append? ==> !calls[i].fault.WriteFails?
    ensures var ws := History(c, calls, id); forall i :: 0 <= i < |ws| ==> ws[i].torn == []
    decreases |calls|
  {
    if calls == [] {
    } else {
      NothingIsTorn(c, Front(calls), id);
      HistorySnoc(c, calls, id);
      assert Last(calls) == calls[|calls| - 1];
      hide History;
    }
  }

  /** After any mix of calls in which no write is torn, a log reads back as its own encodable
      entries in the order they were appended, exactly when each of them makes a line that
      the scanner returns whole.  This needs no law about joined lines. */
  lemma {:induction false} AppendsReadBackInOrder<E(!new)>(c: Codec<E>, calls: seq<Call<E>>, id: RunId)
    requires Lawful(c)
    requires forall i :: 0 <= i < |calls| && calls[i].Append? ==> !calls[i].fault.WriteFails?
    ensures var es := Wholes(History(c, calls, id));
      Read(c, Stored(AfterCalls(c, calls).files, id)) == Ok(es) <==> forall e :: e in es ==> Short(c, e) && !EndsInCR(c, e)
  {
    var ws := History(c, calls, id);
    var es := Wholes(ws);
    FilesHoldTheHistory(c, calls, id);
    NothingIsTorn(c, calls, id);
    WholeContent(c, ws);
    ReadsBackExactlyWhen(c, es);
    hide History, AfterCalls, Content;
    assert (forall e :: e in es ==> Short(c, e) && !EndsInCR(c, e)) <==>
           (forall i :: 0 <= i < |es| ==> Short(c, es[i]) && !EndsInCR(c, es[i]));
  }

  // ----- an entry lost behind a torn write

  /** The next append completes the line of a torn write, and is lost with it. */
  lemma {:induction false} AppendAfterTornWriteIsLost<E(!new)>(c: Codec<E>, id: RunId, e: E, f: E, n: nat)
    requires Lawful(c) && NeverJoins(c) && c.encode(e).Some? && c.encode(f).Some?
    requires 0 < n <= |c.encode(e).value| && n + |c.encode(f).value| < MAX_LINE
    ensures var calls := [Append(id, [e], WriteFails(n)), Append(id, [f], NoFault)];
      Read(c, Stored(AfterCalls(c, calls).files, id)) == Ok([])
  {
    var calls := [Append(id, [e], WriteFails(n)), Append(id, [f], NoFault)];
    var p := c.encode(e).value[..n];
    var torn: Landed<E> := Landed([], p);
    var ws := [torn, Landed([f], [])];
    HistoryOfTwo(c, id, e, f, n);
    TwoWrites(c, p, f);
    MixedCallsReadBack(c, calls, id);
    SurvivingNothing(c);
    assert ReadBack(c, ws) == [] + [] && [f][1..] == [];
    hide *;
  }

  lemma HistoryOfTwo<E(!new)>(c: Codec<E>, id: RunId, e: E, f: E, n: nat)
    requires c.encode(e).Some? && c.encode(f).Some? && 0 < n <= |c.encode(e).value|
    ensures History(c, [Append(id, [e], WriteFails(n)), Append(id, [f], NoFault)], id) ==
            [Landed([], c.encode(e).value[..n]), Landed([f], [])]
  {
    var first: Call<E>, second: Call<E> := Append(id, [e], WriteFails(n)), Append(id, [f], NoFault);
    assert Front([first, second]) == [first] && Front([first]) == [];
    assert History(c, [first], id) == [Landed([], c.encode(e).value[..n])];
  }

  lemma TwoWrites<E(!new)>(c: Codec<E>, p: Text, f: E)
    requires c.encode(f).Some? && p != []
    ensures var ws := [Landed([], p), Landed([f], [])];
      && AllEncodable(c, ws)
      && Tail(ws) == [] && Join(Tail(ws)) == []
      && ReadBack(c, ws) == []
      && (LinesFit(c, ws) <==> |p| + |c.encode(f).value| < MAX_LINE)
  {
    var torn: Landed<E> := Landed([], p);
    var ws := [torn, Landed([f], [])];
    OneTornWrite(c, p);
    assert Front(ws) == [torn];
    assert [f][1..] == [];
    SurvivingNothing(c);
    JoinNothing();
    hide Join, Surviving;
  }

  lemma {:induction false} OneTornWrite<E>(c: Codec<E>, p: Text)
    requires p != []
    ensures var ws: seq<Landed<E>> := [Landed([], p)];
      AllEncodable(c, ws) && LinesFit(c, ws) && Tail(ws) == [p] && Join([p]) == p && ReadBack(c, ws) == []
  {
    var ws: seq<Landed<E>> := [Landed([], p)];
    assert Front(ws) == [];
    assert Front([p]) == [] && [] + p == p;
    assert LinesFit<E>(c, []);
  }

  // ----- the laws can be kept

  /** A codec with the one text `{}`. */
  function BraceCodec(): Codec<bool> {
    Codec((u: bool) => if u then Some([123, 125]) else None,
          (b: Text) => if b == [123, 125] then Some(true) else None)
  }

  lemma {:induction false} BracesKeepTheLaws()
    ensures Lawful(BraceCodec()) && NeverJoins(BraceCodec())
  {
    var c := BraceCodec();
    var b: Text := [123, 125];
    assert OneLine(c, true, b);
    forall pieces: seq<Text> | |pieces| >= 2 && (forall i :: 0 <= i < |pieces| ==> IsPiece(c, pieces[i]))
      ensures Decoded(c, Join(pieces)) == []
    {
      BracesDoNotJoin(pieces);
    }
  }

  lemma {:induction false} BracesDoNotJoin(pieces: seq<Text>)
    requires |pieces| >= 2 && forall i :: 0 <= i < |pieces| ==> IsPiece(BraceCodec(), pieces[i])
    ensures Decoded(BraceCodec(), Join(pieces)) == []
  {
    var p, front := Last(pieces), Front(pieces);
    BracePiece(p);
    BracePiece(Last(front));
    var q := Join(front);
    assert q == Join(Front(front)) + Last(front);
    assert Join(pieces) == q + p;
    assert |q| >= 1 && (q + p)[|q|] == 123;
    assert Last(q + p) == Last(p) != CARRIAGE_RETURN;
  }

  lemma BracePiece(p: Text)
    requires IsPiece(BraceCodec(), p)
    ensures p != [] && p[0] == 123 && Last(p) != CARRIAGE_RETURN
  {
    var b: Text := [123, 125];
    assert p <= b;
    assert p == b[..|p|];
  }
}
