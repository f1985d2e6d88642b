/** The TRY / CATCH / FINALLY macros of include/exceptions.h: a chain of setjmp contexts and a
    global "current context", against structured exception semantics. */
module Exceptions {

  /** Programs built with the macros, over a data state `D`. Each block ends by running to its
      end or by THROW, never by a jump out of it. */
  datatype Stmt<!D> =
    | Act(f: D -> D)
    | Seq(first: Stmt<D>, second: Stmt<D>)
    | If(cond: D -> bool, yes: Stmt<D>, no: Stmt<D>)
    | While(cond: D -> bool, body: Stmt<D>)
    | Throw(code: D -> nat)
    | Try(body: Stmt<D>, catches: Catches<D>, fin: Stmt<D>)

  /** The if / else-if chain of CATCH clauses, possibly ended by CATCH_OTHER or CATCH_ALL;
      `bind` hands the exception to the handler. */
  datatype Catches<!D> =
    | None
    | Catch(x: nat, handler: Stmt<D>, rest: Catches<D>)
    | Other(bind: (D, nat) -> D, handler: Stmt<D>)

  /** The exception a block sees for THROW(code): `setjmp` never returns 0 after a `longjmp`,
      and the value is stored in a 16-bit field. */
  function Delivered(code: nat): nat
  {
    (if code == 0 then 1 else code) % 0x1_0000
  }

  /** Every code thrown is nonzero once delivered. */
  ghost predicate WellCoded<D(!new)>(s: Stmt<D>)
  {
    match s
    case Act(_) => true
    case Seq(a, b) => WellCoded(a) && WellCoded(b)
    case If(_, a, b) => WellCoded(a) && WellCoded(b)
    case While(_, a) => WellCoded(a)
    case Throw(code) => forall d :: Delivered(code(d)) != 0
    case Try(body, catches, fin) => WellCoded(body) && WellCodedCatches(catches) && WellCoded(fin)
  }

  ghost predicate WellCodedCatches<D(!new)>(cs: Catches<D>)
  {
    match cs
    case None => true
    case Catch(_, handler, rest) => WellCoded(handler) && WellCodedCatches(rest)
    case Other(_, handler) => WellCoded(handler)
  }

  // ---------------------------------------------------------------- structured semantics

  /** How a program ends, if it ends within the rounds of its loops that it is given. */
  datatype Result<D> = Normal(data: D) | Raised(code: nat, data: D) | Unfinished

  /** `fuel` bounds how deep loop rounds may follow one another; see EvalMore. With `retry`, a code
      delivered as zero makes the innermost enclosing TRY run its body again, which is what the
      macros do; without, it is an exception like any other. */
  function Eval<D>(s: Stmt<D>, d: D, fuel: nat, retry: bool): Result<D>
    decreases fuel, s, 0
  {
    match s
    case Act(f) => Normal(f(d))
    case Seq(a, b) =>
      (match Eval(a, d, fuel, retry)
       case Normal(d1) => Eval(b, d1, fuel, retry)
       case Raised(c, d1) => Raised(c, d1)
       case Unfinished => Unfinished)
    case If(cond, a, b) => if cond(d) then Eval(a, d, fuel, retry) else Eval(b, d, fuel, retry)
    case While(cond, a) =>
      if !cond(d) then Normal(d)
      else if fuel == 0 then Unfinished
      else (
        match Eval(a, d, fuel - 1, retry)
        case Normal(d1) => Eval(s, d1, fuel - 1, retry)
        case Raised(c, d1) => Raised(c, d1)
        case Unfinished => Unfinished)
    case Throw(code) => Raised(Delivered(code(d)), d)
    case Try(body, catches, fin) =>
      match Eval(body, d, fuel, retry)
      case Unfinished => Unfinished
      case Normal(d1) => Eval(fin, d1, fuel, retry)
      case Raised(c, d1) =>
        if c == 0 && retry then
          if fuel == 0 then Unfinished else Eval(s, d1, fuel - 1, retry)
        else if Matches(catches, c) then
          match Handle(catches, c, d1, fuel, retry)
          case Normal(d2) => Eval(fin, d2, fuel, retry)
          case Raised(c2, d2) => Raised(c2, d2)
          case Unfinished => Unfinished
        else
          match Eval(fin, d1, fuel, retry)
          case Normal(d2) => Raised(c, d2)
          case Raised(c2, d2) => Raised(c2, d2)
          case Unfinished => Unfinished
  }

  predicate Matches<D>(cs: Catches<D>, c: nat)
  {
    match cs
    case None => false
    case Catch(x, _, rest) => c == x || Matches(rest, c)
    case Other(_, _) => true
  }

  function Handle<D>(cs: Catches<D>, c: nat, d: D, fuel: nat, retry: bool): Result<D>
    requires Matches(cs, c)
    decreases fuel, cs, 0
  {
    match cs
    case Catch(x, handler, rest) => if c == x then Eval(handler, d, fuel, retry) else Handle(rest, c, d, fuel, retry)
    case Other(bind, handler) => Eval(handler, bind(d, c), fuel, retry)
  }

  /** A program that ends ends the same way with more fuel: the result is a property of the
      program. */
  lemma {:induction false} EvalMore<D>(s: Stmt<D>, d: D, fuel: nat, more: nat, retry: bool)
    requires fuel <= more && Eval(s, d, fuel, retry) != Unfinished
    ensures Eval(s, d, more, retry) == Eval(s, d, fuel, retry)
    decreases fuel, s, 0
  {
    match s {
      case Act(_) =>
      case Throw(_) =>
      case Seq(a, b) =>
        EvalMore(a, d, fuel, more, retry);
        if Eval(a, d, fuel, retry).Normal? { EvalMore(b, Eval(a, d, fuel, retry).data, fuel, more, retry); }
      case If(cond, a, b) =>
        if cond(d) { EvalMore(a, d, fuel, more, retry); } else { EvalMore(b, d, fuel, more, retry); }
      case While(cond, a) =>
        if cond(d) {
          EvalMore(a, d, fuel - 1, more - 1, retry);
          var r := Eval(a, d, fuel - 1, retry);
          if r.Normal? { EvalMore(s, r.data, fuel - 1, more - 1, retry); }
        }
      case Try(body, catches, fin) =>
        EvalMore(body, d, fuel, more, retry);
        var r := Eval(body, d, fuel, retry);
        if r.Normal? {
          EvalMore(fin, r.data, fuel, more, retry);
        } else if r.code == 0 && retry {
          EvalMore(s, r.data, fuel - 1, more - 1, retry);
        } else if Matches(catches, r.code) {
          HandleMore(catches, r.code, r.data, fuel, more, retry);
          var h := Handle(catches, r.code, r.data, fuel, retry);
          if h.Normal? { EvalMore(fin, h.data, fuel, more, retry); }
        } else {
          EvalMore(fin, r.data, fuel, more, retry);
        }
    }
  }

  lemma {:induction false} HandleMore<D>(cs: Catches<D>, c: nat, d: D, fuel: nat, more: nat, retry: bool)
    requires fuel <= more && Matches(cs, c) && Handle(cs, c, d, fuel, retry) != Unfinished
    ensures Handle(cs, c, d, more, retry) == Handle(cs, c, d, fuel, retry)
    decreases fuel, cs, 0
  {
    match cs {
      case Catch(x, handler, rest) =>
        if c == x { EvalMore(handler, d, fuel, more, retry); } else { HandleMore(rest, c, d, fuel, more, retry); }
      case Other(bind, handler) => EvalMore(handler, bind(d, c), fuel, more, retry);
    }
  }

  /** A raised exception is a 16-bit value, and nonzero in a well-coded program: it survives being
      thrown again. */
  lemma {:induction false} RaisedCode<D(!new)>(s: Stmt<D>, d: D, fuel: nat, retry: bool)
    requires Eval(s, d, fuel, retry).Raised?
    ensures Eval(s, d, fuel, retry).code < 0x1_0000
    ensures WellCoded(s) ==> Eval(s, d, fuel, retry).code > 0
    decreases fuel, s, 0
  {
    match s {
      case Act(_) =>
      case Throw(_) =>
      case Seq(a, b) =>
        if Eval(a, d, fuel, retry).Raised? { RaisedCode(a, d, fuel, retry); } else { RaisedCode(b, Eval(a, d, fuel, retry).data, fuel, retry); }
      case If(cond, a, b) =>
        if cond(d) { RaisedCode(a, d, fuel, retry); } else { RaisedCode(b, d, fuel, retry); }
      case While(cond, a) =>
        var r := Eval(a, d, fuel - 1, retry);
        if r.Raised? { RaisedCode(a, d, fuel - 1, retry); } else { RaisedCode(s, r.data, fuel - 1, retry); }
      case Try(body, catches, fin) =>
        var r := Eval(body, d, fuel, retry);
        if r.Normal? {
          RaisedCode(fin, r.data, fuel, retry);
        } else if r.code == 0 && retry {
          RaisedCode(s, r.data, fuel - 1, retry);
        } else if Matches(catches, r.code) {
          var h := Handle(catches, r.code, r.data, fuel, retry);
          if h.Raised? { HandledCode(catches, r.code, r.data, fuel, retry); } else { RaisedCode(fin, h.data, fuel, retry); }
        } else {
          RaisedCode(body, d, fuel, retry);
          if Eval(fin, r.data, fuel, retry).Raised? { RaisedCode(fin, r.data, fuel, retry); }
        }
    }
  }

  lemma {:induction false} HandledCode<D(!new)>(cs: Catches<D>, c: nat, d: D, fuel: nat, retry: bool)
    requires Matches(cs, c) && Handle(cs, c, d, fuel, retry).Raised?
    ensures Handle(cs, c, d, fuel, retry).code < 0x1_0000
    ensures WellCodedCatches(cs) ==> Handle(cs, c, d, fuel, retry).code > 0
    decreases fuel, cs, 0
  {
    match cs {
      case Catch(x, handler, rest) =>
        if c == x { RaisedCode(handler, d, fuel, retry); } else { HandledCode(rest, c, d, fuel, retry); }
      case Other(bind, handler) => RaisedCode(handler, bind(d, c), fuel, retry);
    }
  }

  // ---------------------------------------------------------------- codes delivered as zero

  /** In a well-coded program no block is run again: the two readings are one. */
  lemma {:induction false} NoRetry<D(!new)>(s: Stmt<D>, d: D, fuel: nat)
    requires WellCoded(s)
    ensures Eval(s, d, fuel, true) == Eval(s, d, fuel, false)
    decreases fuel, s, 0
  {
    match s {
      case Act(_) =>
      case Throw(_) =>
      case Seq(a, b) =>
        NoRetry(a, d, fuel);
        if Eval(a, d, fuel, false).Normal? { NoRetry(b, Eval(a, d, fuel, false).data, fuel); }
      case If(cond, a, b) =>
        if cond(d) { NoRetry(a, d, fuel); } else { NoRetry(b, d, fuel); }
      case While(cond, a) =>
        if cond(d) && fuel > 0 {
          NoRetry(a, d, fuel - 1);
          var r := Eval(a, d, fuel - 1, false);
          if r.Normal? { NoRetry(s, r.data, fuel - 1); }
        }
      case Try(body, catches, fin) =>
        NoRetry(body, d, fuel);
        var r := Eval(body, d, fuel, false);
        if r.Normal? {
          NoRetry(fin, r.data, fuel);
        } else if r.Raised? {
          RaisedCode(body, d, fuel, false);
          NoRetry(fin, r.data, fuel);
          if Matches(catches, r.code) {
            NoRetryHandler(catches, r.code, r.data, fuel);
            var h := Handle(catches, r.code, r.data, fuel, false);
            if h.Normal? { NoRetry(fin, h.data, fuel); }
          }
        }
    }
  }

  lemma {:induction false} NoRetryHandler<D(!new)>(cs: Catches<D>, c: nat, d: D, fuel: nat)
    requires WellCodedCatches(cs) && Matches(cs, c)
    ensures Handle(cs, c, d, fuel, true) == Handle(cs, c, d, fuel, false)
    decreases fuel, cs, 0
  {
    match cs {
      case Catch(x, handler, rest) =>
        if c == x { NoRetry(handler, d, fuel); } else { NoRetryHandler(rest, c, d, fuel); }
      case Other(bind, handler) => NoRetry(handler, bind(d, c), fuel);
    }
  }

  /** A block with no CATCH and nothing to do in FINALLY. */
  function Bare<D>(body: Stmt<D>): Stmt<D>
  {
    Try(body, None, Act(d => d))
  }

  lemma {:induction false} BareNeverZero<D>(body: Stmt<D>, d: D, fuel: nat)
    ensures Eval(Bare(body), d, fuel, true).Raised? ==> Eval(Bare(body), d, fuel, true).code != 0
    decreases fuel
  {
    var r := Eval(body, d, fuel, true);
    if r.Raised? && r.code == 0 && fuel > 0 {
      BareNeverZero(body, r.data, fuel - 1);
    }
  }

  /** Around a body on which the two readings agree, they agree on the block exactly when the body
      does not end with a code delivered as zero. */
  lemma ZeroMakesTheDifference<D>(body: Stmt<D>, d: D, fuel: nat)
    requires Eval(body, d, fuel, true) == Eval(body, d, fuel, false)
    ensures var r := Eval(body, d, fuel, false);
            Eval(Bare(body), d, fuel, true) == Eval(Bare(body), d, fuel, false) <==> !(r.Raised? && r.code == 0)
  {
    BareNeverZero(body, d, fuel);
  }

  /** A block that counts and throws 0x10000 the first time: it is run again and ends normally,
      where an exception should have left it. */
  lemma RunsAgain()
    ensures var body := Seq(Act((n: int) => n + 1), If((n: int) => n == 1, Throw((n: int) => 0x1_0000), Act((n: int) => n)));
            Eval(Bare(body), 0, 1, true) == Normal(2) && Eval(Bare(body), 0, 1, false) == Raised(0, 1)
  {
    var body := Seq(Act((n: int) => n + 1), If((n: int) => n == 1, Throw((n: int) => 0x1_0000), Act((n: int) => n)));
    assert Eval(body, 0, 1, true) == Raised(0, 1) && Eval(body, 0, 1, false) == Raised(0, 1);
    assert Eval(body, 1, 0, true) == Normal(2);
    assert Eval(Bare(body), 1, 0, true) == Normal(2);
  }

  // ---------------------------------------------------------------- which clauses are entered

  /** What is written down about one block: the CATCH clause entered, by position, and FINALLY. */
  datatype Mark = Handler(i: nat) | Final

  /** The same program on data that come with a log, which it leaves alone. */
  function Lift<D>(s: Stmt<D>): Stmt<(D, seq<Mark>)>
  {
    match s
    case Act(f) => Act((x: (D, seq<Mark>)) => (f(x.0), x.1))
    case Seq(a, b) => Seq(Lift(a), Lift(b))
    case If(cond, a, b) => If((x: (D, seq<Mark>)) => cond(x.0), Lift(a), Lift(b))
    case While(cond, a) => While((x: (D, seq<Mark>)) => cond(x.0), Lift(a))
    case Throw(code) => Throw((x: (D, seq<Mark>)) => code(x.0))
    case Try(body, catches, fin) => Try(Lift(body), LiftCatches(catches), Lift(fin))
  }

  function LiftCatches<D>(cs: Catches<D>): Catches<(D, seq<Mark>)>
  {
    match cs
    case None => None
    case Catch(x, handler, rest) => Catch(x, Lift(handler), LiftCatches(rest))
    case Other(bind, handler) => Other((x: (D, seq<Mark>), c: nat) => (bind(x.0, c), x.1), Lift(handler))
  }

  function WithLog<D>(r: Result<D>, log: seq<Mark>): Result<(D, seq<Mark>)>
  {
    match r
    case Normal(d) => Normal((d, log))
    case Raised(c, d) => Raised(c, (d, log))
    case Unfinished => Unfinished
  }

  lemma {:induction false} Lifted<D>(s: Stmt<D>, d: D, log: seq<Mark>, fuel: nat, retry: bool)
    ensures Eval(Lift(s), (d, log), fuel, retry) == WithLog(Eval(s, d, fuel, retry), log)
    decreases fuel, s, 0
  {
    match s {
      case Act(_) =>
      case Throw(_) =>
      case Seq(a, b) =>
        Lifted(a, d, log, fuel, retry);
        if Eval(a, d, fuel, retry).Normal? { Lifted(b, Eval(a, d, fuel, retry).data, log, fuel, retry); }
      case If(cond, a, b) =>
        if cond(d) { Lifted(a, d, log, fuel, retry); } else { Lifted(b, d, log, fuel, retry); }
      case While(cond, a) =>
        if cond(d) && fuel > 0 {
          Lifted(a, d, log, fuel - 1, retry);
          var r := Eval(a, d, fuel - 1, retry);
          if r.Normal? { Lifted(s, r.data, log, fuel - 1, retry); }
        }
      case Try(body, catches, fin) => LiftedTry(s, d, log, fuel, retry);
    }
  }

  lemma {:induction false} LiftedTry<D>(s: Stmt<D>, d: D, log: seq<Mark>, fuel: nat, retry: bool)
    requires s.Try?
    ensures Eval(Lift(s), (d, log), fuel, retry) == WithLog(Eval(s, d, fuel, retry), log)
    decreases fuel, s, -1
  {
    Lifted(s.body, d, log, fuel, retry);
    var r := Eval(s.body, d, fuel, retry);
    if r.Normal? {
      Lifted(s.fin, r.data, log, fuel, retry);
    } else if r.Raised? {
      if r.code == 0 && retry {
        if fuel > 0 { Lifted(s, r.data, log, fuel - 1, retry); }
      } else {
        LiftedMatches(s.catches, r.code);
        Lifted(s.fin, r.data, log, fuel, retry);
        if Matches(s.catches, r.code) {
          LiftedHandler(s.catches, r.code, r.data, log, fuel, retry);
          var h := Handle(s.catches, r.code, r.data, fuel, retry);
          if h.Normal? { Lifted(s.fin, h.data, log, fuel, retry); }
        }
      }
    }
  }

  lemma {:induction false} LiftedMatches<D>(cs: Catches<D>, c: nat)
    ensures Matches(LiftCatches(cs), c) == Matches(cs, c)
  {
    if cs.Catch? { LiftedMatches(cs.rest, c); }
  }

  lemma {:induction false} LiftedHandler<D>(cs: Catches<D>, c: nat, d: D, log: seq<Mark>, fuel: nat, retry: bool)
    requires Matches(cs, c) && Matches(LiftCatches(cs), c)
    ensures Handle(LiftCatches(cs), c, (d, log), fuel, retry) == WithLog(Handle(cs, c, d, fuel, retry), log)
    decreases fuel, cs, 0
  {
    match cs {
      case Catch(x, handler, rest) =>
        if c == x { Lifted(handler, d, log, fuel, retry); } else { LiftedMatches(rest, c); LiftedHandler(rest, c, d, log, fuel, retry); }
      case Other(bind, handler) => Lifted(handler, bind(d, c), log, fuel, retry);
    }
  }

  function Note<D>(mark: Mark): Stmt<(D, seq<Mark>)>
  {
    Act((x: (D, seq<Mark>)) => (x.0, x.1 + [mark]))
  }

  /** A block that writes down which of its clauses it enters, as the first thing in each. */
  function Watched<D>(body: Stmt<D>, cs: Catches<D>, fin: Stmt<D>): Stmt<(D, seq<Mark>)>
  {
    Try(Lift(body), WatchedCatches(cs, 0), Seq(Note(Final), Lift(fin)))
  }

  function WatchedCatches<D>(cs: Catches<D>, i: nat): Catches<(D, seq<Mark>)>
  {
    match cs
    case None => None
    case Catch(x, handler, rest) => Catch(x, Seq(Note(Handler(i)), Lift(handler)), WatchedCatches(rest, i + 1))
    case Other(bind, handler) =>
      Other((x: (D, seq<Mark>), c: nat) => (bind(x.0, c), x.1), Seq(Note(Handler(i)), Lift(handler)))
  }

  /** The CATCH clauses one by one: the codes each is for, what it hands to its handler, and the
      handler. */
  datatype Clause<!D> = Clause(takes: nat -> bool, start: (D, nat) -> D, handler: Stmt<D>)

  function Clauses<D>(cs: Catches<D>): seq<Clause<D>>
  {
    match cs
    case None => []
    case Catch(x, handler, rest) => [Clause((c: nat) => c == x, (d: D, c: nat) => d, handler)] + Clauses(rest)
    case Other(bind, handler) => [Clause((c: nat) => true, bind, handler)]
  }

  /** The first clause that takes the code. */
  ghost predicate FirstFor<D>(cs: Catches<D>, c: nat, i: nat)
  {
    i < |Clauses(cs)| && Clauses(cs)[i].takes(c) && forall j :: 0 <= j < i ==> !Clauses(cs)[j].takes(c)
  }

  ghost predicate NoneFor<D>(cs: Catches<D>, c: nat)
  {
    forall j :: 0 <= j < |Clauses(cs)| ==> !Clauses(cs)[j].takes(c)
  }

  lemma {:induction false} WatchedUnmatched<D>(cs: Catches<D>, c: nat, i: nat)
    requires NoneFor(cs, c)
    ensures !Matches(WatchedCatches(cs, i), c)
  {
    assert Clauses(cs) != [] ==> !Clauses(cs)[0].takes(c);
    match cs {
      case None =>
      case Catch(x, handler, rest) =>
        assert Clauses(cs)[0].takes(c) == (c == x);
        forall j | 0 <= j < |Clauses(rest)| ensures !Clauses(rest)[j].takes(c) { assert Clauses(cs)[j + 1] == Clauses(rest)[j]; }
        WatchedUnmatched(rest, c, i + 1);
      case Other(bind, handler) =>
    }
  }

  lemma {:induction false} WatchedHandler<D>(cs: Catches<D>, c: nat, d: D, log: seq<Mark>, i: nat, k: nat, fuel: nat, retry: bool)
    requires FirstFor(cs, c, k)
    ensures Matches(WatchedCatches(cs, i), c)
    ensures var clause := Clauses(cs)[k];
            Handle(WatchedCatches(cs, i), c, (d, log), fuel, retry)
            == WithLog(Eval(clause.handler, clause.start(d, c), fuel, retry), log + [Handler(i + k)])
    decreases cs
  {
    match cs {
      case Catch(x, handler, rest) =>
        assert Clauses(cs)[0].takes(c) == (c == x);
        if k == 0 {
          assert Clauses(cs)[0].start(d, c) == d && Clauses(cs)[0].handler == handler;
          Noted(Handler(i), handler, d, log, fuel, retry);
        } else {
          assert !Clauses(cs)[0].takes(c);
          forall j | 0 <= j < k - 1 ensures !Clauses(rest)[j].takes(c) { assert Clauses(cs)[j + 1] == Clauses(rest)[j]; }
          WatchedHandler(rest, c, d, log, i + 1, k - 1, fuel, retry);
        }
      case Other(bind, handler) => Noted(Handler(i), handler, bind(d, c), log, fuel, retry);
    }
  }

  /** A clause that notes that it was entered. */
  lemma Noted<D>(mark: Mark, s: Stmt<D>, d: D, log: seq<Mark>, fuel: nat, retry: bool)
    ensures Eval(Seq(Note(mark), Lift(s)), (d, log), fuel, retry) == WithLog(Eval(s, d, fuel, retry), log + [mark])
  {
    Lifted(s, d, log + [mark], fuel, retry);
  }

  /** The body ends normally: FINALLY is entered, once, and no CATCH is. */
  lemma NormalEnd<D>(body: Stmt<D>, cs: Catches<D>, fin: Stmt<D>, d: D, fuel: nat, retry: bool)
    requires Eval(body, d, fuel, retry).Normal?
    ensures var d1 := Eval(body, d, fuel, retry).data;
            Eval(Watched(body, cs, fin), (d, []), fuel, retry) == WithLog(Eval(fin, d1, fuel, retry), [Final])
  {
    Lifted(body, d, [], fuel, retry);
    Noted(Final, fin, Eval(body, d, fuel, retry).data, [], fuel, retry);
    assert [] + [Final] == [Final];
  }

  /** The body raises a code that no clause takes: FINALLY is entered, once, and then the code goes
      on, unless FINALLY raises one of its own. */
  lemma UnmatchedCode<D>(body: Stmt<D>, cs: Catches<D>, fin: Stmt<D>, d: D, fuel: nat, retry: bool)
    requires var r := Eval(body, d, fuel, retry); r.Raised? && NoneFor(cs, r.code) && !(retry && r.code == 0)
    ensures var r := Eval(body, d, fuel, retry);
            var f := Eval(fin, r.data, fuel, retry);
            Eval(Watched(body, cs, fin), (d, []), fuel, retry) ==
            if f.Normal? then Raised(r.code, (f.data, [Final])) else WithLog(f, [Final])
  {
    var r := Eval(body, d, fuel, retry);
    Lifted(body, d, [], fuel, retry);
    WatchedUnmatched(cs, r.code, 0);
    Noted(Final, fin, r.data, [], fuel, retry);
    assert [] + [Final] == [Final];
  }

  /** The body raises a code that clause k is the first to take: only that clause is entered, on the
      data as they were thrown; if it ends normally FINALLY is entered after it, once; if it raises,
      its code leaves the block at once. */
  lemma MatchedCode<D>(body: Stmt<D>, cs: Catches<D>, fin: Stmt<D>, d: D, k: nat, fuel: nat, retry: bool)
    requires var r := Eval(body, d, fuel, retry); r.Raised? && FirstFor(cs, r.code, k) && !(retry && r.code == 0)
    ensures var r := Eval(body, d, fuel, retry);
            var clause := Clauses(cs)[k];
            var h := Eval(clause.handler, clause.start(r.data, r.code), fuel, retry);
            Eval(Watched(body, cs, fin), (d, []), fuel, retry) ==
            if h.Normal? then WithLog(Eval(fin, h.data, fuel, retry), [Handler(k), Final]) else WithLog(h, [Handler(k)])
  {
    var r := Eval(body, d, fuel, retry);
    Lifted(body, d, [], fuel, retry);
    WatchedHandler(cs, r.code, r.data, [], 0, k, fuel, retry);
    assert [] + [Handler(0 + k)] == [Handler(k)];
    CaughtThenFinally(body, cs, fin, d, r.code, r.data, fuel, retry);
    var clause := Clauses(cs)[k];
    var h := Eval(clause.handler, clause.start(r.data, r.code), fuel, retry);
    if h.Normal? {
      Noted(Final, fin, h.data, [Handler(k)], fuel, retry);
      assert [Handler(k)] + [Final] == [Handler(k), Final];
    }
  }

  /** The body raises a code delivered as zero: no clause is entered, not even FINALLY, and the block
      starts over on the data as they were thrown. */
  lemma ZeroStartsOver<D>(body: Stmt<D>, cs: Catches<D>, fin: Stmt<D>, d: D, fuel: nat)
    requires var r := Eval(body, d, fuel, true); fuel > 0 && r.Raised? && r.code == 0
    ensures Eval(Watched(body, cs, fin), (d, []), fuel, true)
            == Eval(Watched(body, cs, fin), (Eval(body, d, fuel, true).data, []), fuel - 1, true)
  {
    Lifted(body, d, [], fuel, true);
  }

  lemma CaughtThenFinally<D>(body: Stmt<D>, cs: Catches<D>, fin: Stmt<D>, d: D, c: nat, d1: D, fuel: nat, retry: bool)
    requires Eval(Lift(body), (d, []), fuel, retry) == Raised(c, (d1, [])) && !(retry && c == 0)
    requires Matches(WatchedCatches(cs, 0), c)
    ensures var h := Handle(WatchedCatches(cs, 0), c, (d1, []), fuel, retry);
            Eval(Watched(body, cs, fin), (d, []), fuel, retry) ==
            if h.Normal? then Eval(Seq(Note(Final), Lift(fin)), h.data, fuel, retry) else h
  {
  }

  /** Watching changes nothing else: without the log it is the block itself. */
  lemma WatchingIsHarmless<D>(body: Stmt<D>, cs: Catches<D>, fin: Stmt<D>, d: D, fuel: nat, retry: bool)
    requires var r := Eval(body, d, fuel, retry); !(retry && r.Raised? && r.code == 0)
    ensures exists log :: Eval(Watched(body, cs, fin), (d, []), fuel, retry) == WithLog(Eval(Try(body, cs, fin), d, fuel, retry), log)
  {
    var r := Eval(body, d, fuel, retry);
    if r.Normal? {
      NormalEnd(body, cs, fin, d, fuel, retry);
      assert Eval(Watched(body, cs, fin), (d, []), fuel, retry) == WithLog(Eval(Try(body, cs, fin), d, fuel, retry), [Final]);
    } else if r.Unfinished? {
      Lifted(body, d, [], fuel, retry);
      assert Eval(Watched(body, cs, fin), (d, []), fuel, retry) == WithLog(Eval(Try(body, cs, fin), d, fuel, retry), []);
    } else {
      WatchedRaise(body, cs, fin, d, fuel, retry);
    }
  }

  lemma WatchedRaise<D>(body: Stmt<D>, cs: Catches<D>, fin: Stmt<D>, d: D, fuel: nat, retry: bool)
    requires var r := Eval(body, d, fuel, retry); r.Raised? && !(retry && r.code == 0)
    ensures exists log :: Eval(Watched(body, cs, fin), (d, []), fuel, retry) == WithLog(Eval(Try(body, cs, fin), d, fuel, retry), log)
  {
    var r := Eval(body, d, fuel, retry);
    var k := SomeClause(cs, r.code);
    if k == |Clauses(cs)| {
      UnmatchedCode(body, cs, fin, d, fuel, retry);
      assert Eval(Watched(body, cs, fin), (d, []), fuel, retry) == WithLog(Eval(Try(body, cs, fin), d, fuel, retry), [Final]);
    } else {
      MatchedCode(body, cs, fin, d, k, fuel, retry);
      FirstHandles(cs, r.code, r.data, k, fuel, retry);
      var h := Handle(cs, r.code, r.data, fuel, retry);
      var log := if h.Normal? then [Handler(k), Final] else [Handler(k)];
      assert Eval(Watched(body, cs, fin), (d, []), fuel, retry) == WithLog(Eval(Try(body, cs, fin), d, fuel, retry), log);
    }
  }

  /** The first clause for a code, or their number if there is none. */
  lemma {:induction false} SomeClause<D>(cs: Catches<D>, c: nat) returns (k: nat)
    ensures k <= |Clauses(cs)|
    ensures if k == |Clauses(cs)| then NoneFor(cs, c) && !Matches(cs, c) else FirstFor(cs, c, k)
  {
    match cs {
      case None => k := 0;
      case Catch(x, handler, rest) =>
        k := 0;
        assert Clauses(cs)[0].takes(c) == (c == x);
        if c != x {
          var j := SomeClause(rest, c);
          k := j + 1;
          assert forall i :: 0 < i < |Clauses(cs)| ==> Clauses(cs)[i] == Clauses(rest)[i - 1];
        }
      case Other(bind, handler) =>
        k := 0;
        assert Clauses(cs)[0].takes(c);
    }
  }

  lemma {:induction false} FirstHandles<D>(cs: Catches<D>, c: nat, d: D, k: nat, fuel: nat, retry: bool)
    requires FirstFor(cs, c, k)
    ensures Matches(cs, c)
    ensures var clause := Clauses(cs)[k];
            Handle(cs, c, d, fuel, retry) == Eval(clause.handler, clause.start(d, c), fuel, retry)
    decreases cs
  {
    match cs {
      case Catch(x, handler, rest) =>
        assert Clauses(cs)[0].takes(c) == (c == x);
        if k == 0 {
          assert Clauses(cs)[0].start(d, c) == d && Clauses(cs)[0].handler == handler;
        } else {
          assert !Clauses(cs)[0].takes(c);
          forall j | 0 <= j < k - 1 ensures !Clauses(rest)[j].takes(c) { assert Clauses(cs)[j + 1] == Clauses(rest)[j]; }
          FirstHandles(rest, c, d, k - 1, fuel, retry);
        }
      case Other(bind, handler) =>
    }
  }

  /** A loop runs as often as its condition says. */
  lemma {:induction false} LoopCounts(n: int, x: int, fuel: nat, retry: bool)
    requires x <= n <= x + fuel
    ensures Eval(While((y: int) => y < n, Act((y: int) => y + 1)), x, fuel, retry) == Normal(n)
    decreases fuel
  {
    if x < n { LoopCounts(n, x + 1, fuel - 1, retry); }
  }

  /** The codes that THROW delivers: every 16-bit code but zero as it is, zero as one. */
  lemma DeliveredCodes(code: nat)
    ensures Delivered(0) == 1
    ensures 0 < code < 0x1_0000 ==> Delivered(code) == code
    ensures code > 0 ==> (Delivered(code) == 0 <==> code % 0x1_0000 == 0)
  {
  }

  // ---------------------------------------------------------------- the machine

  /** A `try_context_t` on the stack. */
  datatype Context = Context(previous: nat, ex: nat)

  /** How a piece of code ends: at its end, by a jump to the context at `target`, or by a throw
      with no context set; or it is still in a loop when the fuel is used up. */
  datatype Outcome = Done | Jump(target: nat, code: nat) | Crash | Running

  /** A machine outcome that amounts to the structured result `r` under the context `current`:
      an exception jumps to the current context and is delivered there as raised. */
  predicate Amounts<D(==)>(r: Result<D>, o: Outcome, data: D, current: nat)
  {
    match r
    case Unfinished => o == Running
    case Normal(d) => o == Done && data == d
    case Raised(c, d) =>
      data == d && if current == 0 then o == Crash else o.Jump? && o.target == current && Delivered(o.code) == c
  }

  /** The contexts below `sp` are untouched. */
  ghost predicate Kept(before: map<nat, Context>, after: map<nat, Context>, sp: nat)
  {
    forall a :: a < sp && a in before ==> a in after && after[a] == before[a]
  }

  class Machine<!D(!new, ==)> {
    const restores: bool             // does longjmp restore the current context (r9)?
    var current: nat                 // try_context_get(); 0 is NULL
    var contexts: map<nat, Context>  // the contexts, by stack address
    var sp: nat                      // next free stack address
    var data: D

    constructor (restores: bool, data: D)
      ensures Valid() && current == 0 && this.data == data && this.restores == restores
    {
      this.restores, this.current, this.contexts, this.sp, this.data := restores, 0, map[], 1, data;
    }

    ghost predicate Valid()
      reads this
    {
      current < sp
    }

    /** If `longjmp` does not restore the context, a code delivered as zero would make a block its
        own predecessor; such programs are fit for a machine that restores it only. */
    ghost predicate Fit(s: Stmt<D>)
    {
      restores || WellCoded(s)
    }

    ghost predicate FitCatches(cs: Catches<D>)
    {
      restores || WellCodedCatches(cs)
    }

    /** Every program runs as its structured semantics says, blocks that are run again included,
        and the context it leaves behind is the one it found. */
    method Exec(s: Stmt<D>, fuel: nat) returns (o: Outcome)
      requires Valid() && Fit(s)
      modifies this
      ensures Amounts(Eval(s, old(data), fuel, true), o, data, old(current))
      ensures o != Running ==> current == old(current) && old(sp) <= sp && (o == Done ==> sp == old(sp))
      ensures o != Running ==> Kept(old(contexts), contexts, old(sp))
      decreases fuel, s, 2
    {
      match s {
        case Act(f) =>
          data := f(data);
          o := Done;
        case Seq(a, b) =>
          o := Exec(a, fuel);
          if o == Done { o := Exec(b, fuel); }
        case If(cond, a, b) =>
          if cond(data) { o := Exec(a, fuel); } else { o := Exec(b, fuel); }
        case While(cond, a) =>
          if !cond(data) {
            o := Done;
          } else if fuel == 0 {
            o := Running;
          } else {
            o := Exec(a, fuel - 1);
            if o == Done { o := Exec(s, fuel - 1); }
          }
        case Throw(code) =>
          o := if current == 0 then Crash else Jump(current, code(data));
        case Try(body, catches, fin) =>
          o := ExecTry(s, fuel);
      }
    }

    method ExecTry(s: Stmt<D>, fuel: nat) returns (o: Outcome)
      requires Valid() && s.Try? && Fit(s)
      modifies this
      ensures Amounts(Eval(s, old(data), fuel, true), o, data, old(current))
      ensures o != Running ==> current == old(current) && old(sp) <= sp && (o == Done ==> sp == old(sp))
      ensures o != Running ==> Kept(old(contexts), contexts, old(sp))
      decreases fuel, s, 1
    {
      // BEGIN_TRY: the context lives at address `me`
      var me := sp;
      sp := sp + 1;
      o := ExecBlock(s, me, fuel);
    }

    /** The block from TRY on, with `setjmp` returning 0: the first time, or again after a code that
        is delivered as zero. */
    method ExecBlock(s: Stmt<D>, me: nat, fuel: nat) returns (o: Outcome)
      requires s.Try? && Fit(s) && sp == me + 1 && current < me
      modifies this
      ensures Amounts(Eval(s, old(data), fuel, true), o, data, old(current))
      ensures o != Running ==> current == old(current) && me <= sp && (o == Done ==> sp == me)
      ensures o != Running ==> Kept(old(contexts), contexts, me)
      decreases fuel, s, 0
    {
      var saved := current;
      contexts := contexts[me := Context(current, 0)];
      current := me;
      o := Exec(s.body, fuel);
      if Eval(s.body, old(data), fuel, true).Raised? { RaisedCode(s.body, old(data), fuel, true); }
      if o.Jump? && o.target == me {
        if Delivered(o.code) == 0 {
          // setjmp seems to return for the first time
          sp := me + 1;
          if restores { current := saved; }
          if fuel == 0 {
            o := Running;
          } else {
            o := ExecBlock(s, me, fuel - 1);
          }
          return;
        }
        o := Land(s.catches, me, saved, o.code, fuel);
      }
      if o != Done { return; }
      o := Finish(s.fin, me, fuel);
    }

    /** The return of `longjmp` into the block whose context is at `me`, and its CATCH clauses.
        `saved` was the current context at the time of `setjmp`. */
    method Land(catches: Catches<D>, me: nat, saved: nat, code: nat, fuel: nat) returns (o: Outcome)
      requires FitCatches(catches) && me < sp && me in contexts && contexts[me] == Context(saved, 0)
      requires current == me && saved < me && Delivered(code) != 0
      modifies this
      ensures o != Running ==> me < sp && me in contexts && (o == Done ==> sp == me + 1)
      ensures var ex := Delivered(code);
              if Matches(catches, ex) then
                Amounts(Handle(catches, ex, old(data), fuel, true), o, data, saved) &&
                (o != Running ==> current == saved) && (o == Done ==> contexts[me] == Context(saved, 0))
              else
                o == Done && data == old(data) && contexts[me] == Context(saved, ex) && current in {me, saved}
      ensures o != Running ==> Kept(old(contexts), contexts, me)
      decreases fuel, catches, 1
    {
      sp := me + 1;
      if restores { current := saved; }
      var ex := Delivered(code);
      contexts := contexts[me := contexts[me].(ex := ex)];
      o := Done;
      if Matches(catches, ex) {
        // CATCH*: ex = 0; CLOSE_TRY
        contexts := contexts[me := contexts[me].(ex := 0)];
        current := contexts[me].previous;
        o := ExecCatch(catches, ex, fuel);
      }
    }

    /** FINALLY and END_TRY of the block whose context is at `me`. */
    method Finish(fin: Stmt<D>, me: nat, fuel: nat) returns (o: Outcome)
      requires Fit(fin) && sp == me + 1 && me in contexts
      requires contexts[me].previous < me && contexts[me].ex < 0x1_0000
      requires current == me || current == contexts[me].previous
      modifies this
      ensures var r, ctx := Eval(fin, old(data), fuel, true), old(contexts[me]);
              && (o != Running ==> current == ctx.previous)
              && Amounts(if r.Normal? && ctx.ex != 0 then Raised(ctx.ex, r.data) else r, o, data, ctx.previous)
      ensures o != Running ==> me <= sp && (o == Done ==> sp == me)
      ensures o != Running ==> Kept(old(contexts), contexts, me)
      decreases fuel, fin, 3
    {
      // FINALLY
      if current == me {
        current := contexts[me].previous;
      }
      o := Exec(fin, fuel);
      if o != Done { return; }
      // END_TRY: throw what no CATCH consumed
      sp := me;
      if contexts[me].ex != 0 {
        o := if current == 0 then Crash else Jump(current, contexts[me].ex);
      }
    }

    method ExecCatch(catches: Catches<D>, ex: nat, fuel: nat) returns (o: Outcome)
      requires Valid() && FitCatches(catches) && Matches(catches, ex)
      modifies this
      ensures Amounts(Handle(catches, ex, old(data), fuel, true), o, data, old(current))
      ensures o != Running ==> current == old(current) && old(sp) <= sp && (o == Done ==> sp == old(sp))
      ensures o != Running ==> Kept(old(contexts), contexts, old(sp))
      decreases fuel, catches, 0
    {
      match catches {
        case Catch(x, handler, rest) =>
          if ex == x { o := Exec(handler, fuel); } else { o := ExecCatch(rest, ex, fuel); }
        case Other(bind, handler) =>
          data := bind(data, ex);
          o := Exec(handler, fuel);
      }
    }
  }
}
