/** Edit scripts between byte strings, and the edit distance they define.

    The distance is given twice: as the recurrence the dynamic program fills in
    (`Distance`), and as the cheapest script (`IsCheapest`).  The lemmas here show
    that the two agree and that the distance is a metric. */
module EditScripts {
  import opened Seqs
  import opened Wrappers

  newtype Byte = b: int | 0 <= b < 256

  // Go indexes strings by byte, so a string is a byte sequence here.
  type Text = seq<Byte>

  datatype Edit = Keep | Substitute(with: Byte) | Insert(what: Byte) | Delete

  type Script = seq<Edit>

  function Price(e: Edit): nat {
    if e.Keep? then 0 else 1
  }

  function Cost(script: Script): nat {
    if script == [] then 0 else Cost(Front(script)) + Price(Last(script))
  }

  function Snoc(r: Option<Text>, c: Byte): Option<Text> {
    match r
    case None => None
    case Some(t) => Some(t + [c])
  }

  /** Runs a script over all of `a`, left to right; unwound from the last edit, which
      deals with the last byte.  A script that does not use up `a` exactly fails. */
  function Apply(script: Script, a: Text): Option<Text> {
    if script == [] then
      if a == [] then Some([]) else None
    else
      match Last(script)
      case Insert(c) => Snoc(Apply(Front(script), a), c)
      case Delete => if a == [] then None else Apply(Front(script), Front(a))
      case Keep => if a == [] then None else Snoc(Apply(Front(script), Front(a)), Last(a))
      case Substitute(c) => if a == [] then None else Snoc(Apply(Front(script), Front(a)), c)
  }

  ghost predicate TurnsInto(script: Script, a: Text, b: Text) {
    Apply(script, a) == Some(b)
  }

  /** `d` is the minimum cost over all scripts that turn `a` into `b`. */
  ghost predicate IsCheapest(a: Text, b: Text, d: int) {
    && (exists script :: TurnsInto(script, a, b) && Cost(script) == d)
    && (forall script :: TurnsInto(script, a, b) ==> d <= Cost(script))
  }

  function Min3(x: int, y: int, z: int): int {
    var m := if x <= y then x else y;
    if m <= z then m else z
  }

  function Distance(a: Text, b: Text): nat
    decreases |a| + |b|
  {
    if a == [] then |b|
    else if b == [] then |a|
    else
      Min3(Distance(Front(a), b) + 1,
           Distance(a, Front(b)) + 1,
           Distance(Front(a), Front(b)) + if Last(a) == Last(b) then 0 else 1)
  }

  // ----- the distance is the optimum over scripts

  lemma {:induction false} ApplySnoc(script: Script, e: Edit, a: Text)
    ensures e.Insert? ==> Apply(script + [e], a) == Snoc(Apply(script, a), e.what)
    ensures !e.Insert? && a == [] ==> Apply(script + [e], a) == None
    ensures a != [] && e.Delete? ==> Apply(script + [e], a) == Apply(script, Front(a))
    ensures a != [] && e.Keep? ==> Apply(script + [e], a) == Snoc(Apply(script, Front(a)), Last(a))
    ensures a != [] && e.Substitute? ==> Apply(script + [e], a) == Snoc(Apply(script, Front(a)), e.with)
    ensures Cost(script + [e]) == Cost(script) + Price(e)
  {
    FrontOfSnoc(script, e);
  }

  lemma {:induction false} NoScriptIsCheaper(script: Script, a: Text, b: Text)
    requires TurnsInto(script, a, b)
    ensures Distance(a, b) <= Cost(script)
    decreases |script|
  {
    if script == [] {
    } else {
      var rest := Front(script);
      match Last(script)
      case Insert(c) =>
        var b' := Apply(rest, a).value;
        FrontOfSnoc(b', c);
        NoScriptIsCheaper(rest, a, b');
      case Delete =>
        NoScriptIsCheaper(rest, Front(a), b);
      case Keep =>
        var b' := Apply(rest, Front(a)).value;
        FrontOfSnoc(b', Last(a));
        NoScriptIsCheaper(rest, Front(a), b');
      case Substitute(c) =>
        var b' := Apply(rest, Front(a)).value;
        FrontOfSnoc(b', c);
        NoScriptIsCheaper(rest, Front(a), b');
    }
  }

  /** A cheapest script, read off the recurrence. */
  function Best(a: Text, b: Text): Script
    decreases |a| + |b|
  {
    if a == [] then
      if b == [] then [] else Best(a, Front(b)) + [Insert(Last(b))]
    else if b == [] || Distance(a, b) == Distance(Front(a), b) + 1 then
      Best(Front(a), b) + [Delete]
    else if Distance(a, b) == Distance(a, Front(b)) + 1 then
      Best(a, Front(b)) + [Insert(Last(b))]
    else
      Best(Front(a), Front(b)) + [if Last(a) == Last(b) then Keep else Substitute(Last(b))]
  }

  lemma {:induction false} DistanceCases(a: Text, b: Text)
    ensures a == [] ==> Distance(a, b) == |b|
    ensures b == [] ==> Distance(a, b) == |a|
    ensures a != [] && b != [] ==>
      Distance(a, b) == Min3(Distance(Front(a), b) + 1, Distance(a, Front(b)) + 1,
                             Distance(Front(a), Front(b)) + if Last(a) == Last(b) then 0 else 1)
  {
  }

  lemma NothingToDo()
    ensures Apply([], []) == Some([]) && Cost([]) == 0
  {
  }

  lemma {:induction false} BestAttains(a: Text, b: Text)
    ensures TurnsInto(Best(a, b), a, b)
    ensures Cost(Best(a, b)) == Distance(a, b)
    decreases |a| + |b|
  {
    hide Distance, Apply, Cost;
    DistanceCases(a, b);
    if a == [] && b == [] {
      NothingToDo();
    } else if a != [] && (b == [] || Distance(a, b) == Distance(Front(a), b) + 1) {
      DistanceCases(Front(a), b);
      BestAttains(Front(a), b);
      ApplySnoc(Best(Front(a), b), Delete, a);
    } else if a == [] || Distance(a, b) == Distance(a, Front(b)) + 1 {
      DistanceCases(a, Front(b));
      BestAttains(a, Front(b));
      ApplySnoc(Best(a, Front(b)), Insert(Last(b)), a);
      assert Front(b) + [Last(b)] == b;
    } else {
      BestAttains(Front(a), Front(b));
      ApplySnoc(Best(Front(a), Front(b)), if Last(a) == Last(b) then Keep else Substitute(Last(b)), a);
      assert Front(b) + [Last(b)] == b;
    }
  }

  lemma DistanceIsCheapest(a: Text, b: Text, d: int)
    ensures IsCheapest(a, b, d) <==> d == Distance(a, b)
  {
    BestAttains(a, b);
    forall script | TurnsInto(script, a, b)
      ensures Distance(a, b) <= Cost(script)
    {
      NoScriptIsCheaper(script, a, b);
    }
  }

  // ----- the distance is a metric

  /** The one edit that does what a writing edit `e` followed by a reading edit `f` does:
      nothing at all for an insertion that is then deleted. */
  function Fuse(e: Edit, f: Edit): Script
    requires !e.Delete? && !f.Insert?
  {
    if e.Insert? && f.Delete? then []
    else if f.Delete? then [Delete]
    else if f.Keep? then [e]
    else if e.Insert? then [Insert(f.with)]
    else [f]
  }

  /** One script doing what `s` and then `t` do. */
  function Compose(s: Script, t: Script): Script
    decreases |s| + |t|
  {
    if s != [] && Last(s).Delete? then Compose(Front(s), t) + [Delete]
    else if t != [] && Last(t).Insert? then Compose(s, Front(t)) + [Last(t)]
    else if s == [] || t == [] then []
    else Compose(Front(s), Front(t)) + Fuse(Last(s), Last(t))
  }

  lemma {:induction false} ComposeIsSequencing(s: Script, t: Script, a: Text, b: Text, c: Text)
    requires TurnsInto(s, a, b) && TurnsInto(t, b, c)
    ensures TurnsInto(Compose(s, t), a, c)
    ensures Cost(Compose(s, t)) <= Cost(s) + Cost(t)
    decreases |s| + |t|
  {
    if s != [] && Last(s).Delete? {
      ComposeIsSequencing(Front(s), t, Front(a), b, c);
      ApplySnoc(Compose(Front(s), t), Delete, a);
    } else if t != [] && Last(t).Insert? {
      var c' := Apply(Front(t), b).value;
      ComposeIsSequencing(s, Front(t), a, b, c');
      ApplySnoc(Compose(s, Front(t)), Last(t), a);
    } else if s != [] && t != [] {
      ComposeMatched(s, t, a, b, c);
    }
  }

  /** The case where the last edit of `s` writes the byte that the last edit of `t` reads. */
  lemma {:induction false} ComposeMatched(s: Script, t: Script, a: Text, b: Text, c: Text)
    requires s != [] && t != [] && !Last(s).Delete? && !Last(t).Insert?
    requires TurnsInto(s, a, b) && TurnsInto(t, b, c)
    ensures TurnsInto(Compose(s, t), a, c)
    ensures Cost(Compose(s, t)) <= Cost(s) + Cost(t)
    decreases |s| + |t|, 0
  {
    var a' := if Last(s).Insert? then a else Front(a);
    var b' := Apply(Front(s), a').value;
    var written := if Last(s).Insert? then Last(s).what else if Last(s).Keep? then Last(a) else Last(s).with;
    FrontOfSnoc(b', written);
    assert Front(b) == b' && Last(b) == written;
    var c' := Apply(Front(t), b').value;
    ComposeIsSequencing(Front(s), Front(t), a', b', c');
    var rest := Compose(Front(s), Front(t));
    if Fuse(Last(s), Last(t)) == [] {
      assert Compose(s, t) == rest;
    } else {
      ApplySnoc(rest, Fuse(Last(s), Last(t))[0], a);
    }
  }

  lemma {:induction false} TriangleInequality(a: Text, b: Text, c: Text)
    ensures Distance(a, c) <= Distance(a, b) + Distance(b, c)
  {
    BestAttains(a, b);
    BestAttains(b, c);
    ComposeIsSequencing(Best(a, b), Best(b, c), a, b, c);
    NoScriptIsCheaper(Compose(Best(a, b), Best(b, c)), a, c);
  }

  lemma {:induction false} Symmetric(a: Text, b: Text)
    ensures Distance(a, b) == Distance(b, a)
    decreases |a| + |b|
  {
    if a == [] || b == [] {
    } else {
      Symmetric(Front(a), b);
      Symmetric(a, Front(b));
      Symmetric(Front(a), Front(b));
    }
  }

  /** At most the longer length, at least the length difference. */
  lemma {:induction false} LengthBounds(a: Text, b: Text)
    ensures Distance(a, b) <= if |a| <= |b| then |b| else |a|
    ensures |a| - |b| <= Distance(a, b) && |b| - |a| <= Distance(a, b)
    decreases |a| + |b|
  {
    if a == [] || b == [] {
    } else {
      LengthBounds(Front(a), b);
      LengthBounds(a, Front(b));
      LengthBounds(Front(a), Front(b));
    }
  }

  lemma {:induction false} ZeroOnlyOnEqual(a: Text, b: Text)
    ensures Distance(a, b) == 0 <==> a == b
    decreases |a| + |b|
  {
    if a == [] || b == [] {
    } else {
      ZeroOnlyOnEqual(Front(a), Front(b));
      assert a == Front(a) + [Last(a)] && b == Front(b) + [Last(b)];
    }
  }
}
