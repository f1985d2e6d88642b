/**
 * What holds of the application storage over whole runs: with power cuts anywhere, and
 * without any.
 */
module AppStorageRuns {
  import opened Basics
  import opened AppStorage

  // ---- Runs with power cuts ---------------------------------------------------------

  /** An operation, and the number of its writes that power lasts for. */
  datatype Event = Event(op: Op, power: nat)

  /** The invariant of every reachable flash: a tagged header never claims too much. */
  predicate Sane(cfg: Config, f: Flash) {
    |f.data| == cfg.capacity && (Tagged(f) ==> f.header.size <= cfg.capacity)
  }

  /** The storage is usable: tagged, within bounds, and its CRC is right. */
  predicate Consistent(cfg: Config, f: Flash) {
    Sane(cfg, f) && Tagged(f) && f.crc == Crc(cfg, f)
  }

  function AfterEvent(cfg: Config, f: Flash, e: Event): (r: Flash)
    requires |f.data| == cfg.capacity
    ensures |r.data| == cfg.capacity
  {
    Run(f, Plan(cfg, f, e.op), e.power)
  }

  function AfterEvents(cfg: Config, f: Flash, events: seq<Event>): (r: Flash)
    requires |f.data| == cfg.capacity
    ensures |r.data| == cfg.capacity
    decreases |events|
  {
    if events == [] then f else AfterEvents(cfg, AfterEvent(cfg, f, events[0]), events[1..])
  }

  /** Erasing changes nothing but data, wherever it is interrupted. */
  lemma {:induction false} EraseRun(cfg: Config, f: Flash, offset: nat, power: nat)
    requires |f.data| == cfg.capacity && offset <= cfg.capacity && f.header == Fresh(cfg)
    requires f.crc == Crc(cfg, f)
    ensures var g := Run(f, ErasePlan(cfg.capacity, offset) + LastPlan(cfg), power);
            g.header == f.header && g.crc == f.crc && |g.data| == |f.data|
    decreases cfg.capacity - offset
  {
    EraseStep(f, cfg.capacity, offset, LastPlan(cfg), power);
    if offset + ERASE_BLOCK < cfg.capacity {
      if power > 0 {
        var g := Apply(f, SetData(offset, Zeros(ERASE_BLOCK)));
        EraseRun(cfg, g, offset + ERASE_BLOCK, power - 1);
      }
    } else if offset < cfg.capacity {
      if power > 0 {
        LastStep(cfg, Apply(f, SetData(offset, Zeros(cfg.capacity - offset))), power - 1);
      }
    } else if cfg.capacity > 0 {
      LastStep(cfg, f, power);
    }
  }

  /** The flash after a reset: cut before the header, before the CRC, or later. */
  lemma ResetShape(cfg: Config, f: Flash, power: nat)
    requires |f.data| == cfg.capacity
    ensures var g := Run(f, Plan(cfg, f, Reset), power);
            if power == 0 then g == f
            else g.header == Fresh(cfg) && (if power == 1 then g.crc == f.crc else g.crc == Crc(cfg, g))
  {
    var rest := ErasePlan(cfg.capacity, 0) + LastPlan(cfg);
    assert Plan(cfg, f, Reset) == ResetPlan(cfg) + rest;
    ResetSteps(cfg, f, rest, power);
    if power >= 2 {
      var g := f.(header := Fresh(cfg));
      var h := g.(crc := Crc(cfg, g));
      assert Content(h) == Content(g);
      EraseRun(cfg, h, 0, power - 2);
      var r := Run(h, rest, power - 2);
      assert Content(r).1 == [] && Content(g).1 == [];
    }
  }

  /** Wherever an operation is interrupted, it leaves a sane flash. */
  lemma EventSane(cfg: Config, f: Flash, e: Event)
    requires Sane(cfg, f)
    ensures Sane(cfg, AfterEvent(cfg, f, e))
  {
    match e.op
    case Init => ResetSteps(cfg, f, [], e.power);
    case Reset => ResetShape(cfg, f, e.power);
    case Write(buf, at) =>
      if WriteRefusal(cfg, |buf|, at) == SUCCESS {
        WriteSteps(cfg, f, buf, at, e.power);
      }
    case Version(v) => VersionSteps(cfg, f, v, e.power);
    case NextVersion => VersionSteps(cfg, f, Bumped(f.header.dataVersion), e.power);
  }

  /**
   * Starting from flash that was never tagged, no run of operations, interrupted anywhere,
   * leaves a tagged header whose size exceeds the data area.
   */
  lemma {:induction false} EventsSane(cfg: Config, f: Flash, events: seq<Event>)
    requires Sane(cfg, f)
    ensures Sane(cfg, AfterEvents(cfg, f, events))
    decreases |events|
  {
    if events != [] {
      EventSane(cfg, f, events[0]);
      EventsSane(cfg, AfterEvent(cfg, f, events[0]), events[1..]);
    }
  }

  /** An initialisation that completes makes the storage usable and keeps the data area. */
  lemma InitRecovers(cfg: Config, f: Flash, power: nat)
    requires Sane(cfg, f) && power >= |Plan(cfg, f, Init)|
    ensures var g := AfterEvent(cfg, f, Event(Init, power));
            && Consistent(cfg, g) && g.data == f.data
            && if Status(cfg, f) == SUCCESS then g == f else g.header == Fresh(cfg)
  {
    ResetSteps(cfg, f, [], power);
    var h := f.(header := Fresh(cfg));
    assert Content(h.(crc := Crc(cfg, h))) == Content(h);
  }

  /** What a completed initialisation leaves of a flash whose tag or CRC is wrong, field by field;
      any other flash it leaves alone. */
  lemma InitFields(cfg: Config, f: Flash, power: nat)
    requires Sane(cfg, f) && power >= 2
    ensures var g := AfterEvent(cfg, f, Event(Init, power));
            if f.header.tag == "NVRA" && f.crc == cfg.sum(f.header, f.data[..f.header.size]) then g == f
            else
              && g.header.tag == "NVRA" && g.header.size == 0 && g.header.structVersion == 1
              && g.header.dataVersion == 1 && g.header.properties == cfg.properties
              && g.data == f.data && g.crc == cfg.sum(g.header, [])
  {
    InitRecovers(cfg, f, power);
    if Status(cfg, f) != SUCCESS {
      ResetSteps(cfg, f, [], power);
    }
  }

  /** The version counts up, with 1 behind the largest, and only then is the CRC made right;
      nothing else changes. */
  lemma VersionFields(cfg: Config, f: Flash, power: nat)
    requires Sane(cfg, f) && Tagged(f)
    ensures var g := AfterEvent(cfg, f, Event(NextVersion, power));
            && g.data == f.data && g.header == f.header.(dataVersion := g.header.dataVersion)
            && g.header.dataVersion ==
               (if power == 0 then f.header.dataVersion
                else if f.header.dataVersion == 0xFFFF_FFFF then 1 else f.header.dataVersion + 1)
            && g.crc == if power < 2 then f.crc else cfg.sum(g.header, g.data[..g.header.size])
  {
    VersionSteps(cfg, f, Bumped(f.header.dataVersion), power);
  }

  /** A write puts the data down first, raises the size after that where it must, and makes the
      CRC right last: what is in the flash after any number of these steps. */
  lemma WriteCut(cfg: Config, f: Flash, buf: seq<u8>, at: u32, power: nat)
    requires Sane(cfg, f) && Tagged(f) && buf != [] && at + |buf| <= cfg.capacity
    ensures var g, end := AfterEvent(cfg, f, Event(Write(buf, at), power)), at + |buf|;
            && (forall i :: 0 <= i < cfg.capacity ==>
                  g.data[i] == if power > 0 && at <= i < end then buf[i - at] else f.data[i])
            && g.header == f.header.(size := if power > 1 && f.header.size < end then end else f.header.size)
            && g.crc == if power < (if f.header.size < end then 3 else 2) then f.crc
                        else cfg.sum(g.header, g.data[..g.header.size])
  {
    WriteSteps(cfg, f, buf, at, power);
  }

  /** A write that is refused changes nothing; why it is refused, and with which code. */
  lemma WriteRefused(cfg: Config, f: Flash, buf: seq<u8>, at: u32, power: nat)
    requires |f.data| == cfg.capacity
    ensures var code := WriteRefusal(cfg, |buf|, at);
            && (code == -1 <==> buf == [] || at + |buf| > 0xFFFF_FFFF)
            && (code == -3 <==> buf != [] && cfg.capacity < at + |buf| <= 0xFFFF_FFFF)
            && (code == 0 <==> buf != [] && at + |buf| <= cfg.capacity)
            && (code != 0 ==> AfterEvent(cfg, f, Event(Write(buf, at), power)) == f)
  {
  }

  /** Whatever was interrupted before it, initialisation leaves a CRC that matches. */
  lemma InitAfterAnything(cfg: Config, f: Flash, events: seq<Event>, power: nat)
    requires |f.data| == cfg.capacity && !Tagged(f)
    requires power >= |Plan(cfg, AfterEvents(cfg, f, events), Init)|
    ensures Consistent(cfg, AfterEvent(cfg, AfterEvents(cfg, f, events), Event(Init, power)))
  {
    EventsSane(cfg, f, events);
    InitRecovers(cfg, AfterEvents(cfg, f, events), power);
  }

  /** Two different contents with the same CRC. */
  predicate Collision(cfg: Config, a: Flash, b: Flash) {
    Content(a) != Content(b) && Crc(cfg, a) == Crc(cfg, b)
  }

  /**
   * An interrupted operation is undone, discarded or complete, never half visible: after
   * the next initialisation the storage holds what it held before, or nothing, or what
   * the whole operation leaves, unless the CRC does not tell two contents apart.
   */
  lemma InterruptionIsDetected(cfg: Config, f: Flash, e: Event, power: nat)
    requires Consistent(cfg, f)
    requires power >= |Plan(cfg, AfterEvent(cfg, f, e), Init)|
    ensures var g := AfterEvent(cfg, f, e);
            var h := AfterEvent(cfg, g, Event(Init, power));
            || Content(h) == Content(f)
            || h.header.size == 0
            || (e.power >= |Plan(cfg, f, e.op)| && h == g)
            || Collision(cfg, f, g)
  {
    var g := AfterEvent(cfg, f, e);
    EventSane(cfg, f, e);
    InitRecovers(cfg, g, power);
    if Status(cfg, g) == SUCCESS {
      match e.op
      case Init =>
      case Reset => ResetShape(cfg, f, e.power);
      case Write(buf, at) =>
        if WriteRefusal(cfg, |buf|, at) == SUCCESS {
          WriteSteps(cfg, f, buf, at, e.power);
        }
      case Version(v) => VersionSteps(cfg, f, v, e.power);
      case NextVersion => VersionSteps(cfg, f, Bumped(f.header.dataVersion), e.power);
    }
  }

  // ---- Boots that are cut as well ------------------------------------------------------

  /** Initialisations, each cut after the given number of writes or complete. */
  function AfterBoots(cfg: Config, f: Flash, boots: seq<nat>): (r: Flash)
    requires |f.data| == cfg.capacity
    ensures |r.data| == cfg.capacity
    decreases |boots|
  {
    if boots == [] then f else AfterBoots(cfg, AfterEvent(cfg, f, Event(Init, boots[0])), boots[1..])
  }

  /** Any number of interrupted initialisations leave the flash alone or with a fresh header. */
  lemma {:induction false} BootsShape(cfg: Config, f: Flash, boots: seq<nat>)
    requires Sane(cfg, f)
    ensures var g := AfterBoots(cfg, f, boots); Sane(cfg, g) && (g == f || g.header == Fresh(cfg))
    decreases |boots|
  {
    if boots != [] {
      var g := AfterEvent(cfg, f, Event(Init, boots[0]));
      EventSane(cfg, f, Event(Init, boots[0]));
      ResetSteps(cfg, f, [], boots[0]);
      BootsShape(cfg, g, boots[1..]);
    }
  }

  /**
   * One session: an operation, interrupted or not, then boots of which any number are cut
   * and the last completes.
   */
  datatype Session = Session(event: Event, boots: seq<nat>)

  function AfterOp(cfg: Config, f: Flash, s: Session): (g: Flash)
    requires |f.data| == cfg.capacity
    ensures |g.data| == cfg.capacity
  {
    AfterEvent(cfg, f, s.event)
  }

  /** The last boot is given all the power it needs: an initialisation makes two writes. */
  function AfterSession(cfg: Config, f: Flash, s: Session): (h: Flash)
    requires |f.data| == cfg.capacity
    ensures |h.data| == cfg.capacity
  {
    AfterEvent(cfg, AfterBoots(cfg, AfterOp(cfg, f, s), s.boots), Event(Init, 2))
  }

  /** How a session may end: as before, empty, complete, or with two contents of one CRC. */
  predicate Detected(cfg: Config, f: Flash, s: Session, h: Flash)
    requires |f.data| == cfg.capacity
  {
    var g := AfterOp(cfg, f, s);
    || Content(h) == Content(f)
    || h.header.size == 0
    || (s.event.power >= |Plan(cfg, f, s.event.op)| && h == g)
    || Collision(cfg, f, g)
  }

  /** Cut boots add nothing: whatever was interrupted in a session, it ends in one of those ways,
      with usable storage. */
  lemma SessionIsDetected(cfg: Config, f: Flash, s: Session)
    requires Consistent(cfg, f)
    ensures var h := AfterSession(cfg, f, s); Consistent(cfg, h) && Detected(cfg, f, s, h)
  {
    var g := AfterOp(cfg, f, s);
    EventSane(cfg, f, s.event);
    BootsShape(cfg, g, s.boots);
    var b := AfterBoots(cfg, g, s.boots);
    assert |Plan(cfg, b, Init)| <= 2;
    InitRecovers(cfg, b, 2);
    var h := AfterSession(cfg, f, s);
    if h.header != Fresh(cfg) {
      assert h == b == g;
      assert Status(cfg, g) == SUCCESS && |Plan(cfg, g, Init)| == 0;
      InterruptionIsDetected(cfg, f, s.event, 0);
      assert AfterEvent(cfg, g, Event(Init, 0)) == g;
    }
  }

  function AfterSessions(cfg: Config, f: Flash, sessions: seq<Session>): (r: Flash)
    requires |f.data| == cfg.capacity
    ensures |r.data| == cfg.capacity
    decreases |sessions|
  {
    if sessions == [] then f else AfterSessions(cfg, AfterSession(cfg, f, sessions[0]), sessions[1..])
  }

  /** In no session does the CRC fail to tell the contents before and after the operation apart. */
  ghost predicate NoCollision(cfg: Config, f: Flash, sessions: seq<Session>)
    requires |f.data| == cfg.capacity
    decreases |sessions|
  {
    sessions == [] ||
    (!Collision(cfg, f, AfterOp(cfg, f, sessions[0])) &&
     NoCollision(cfg, AfterSession(cfg, f, sessions[0]), sessions[1..]))
  }

  /** The storage was found empty after one of the sessions. */
  ghost predicate EverEmptied(cfg: Config, f: Flash, sessions: seq<Session>)
    requires |f.data| == cfg.capacity
    decreases |sessions|
  {
    sessions != [] &&
    var h := AfterSession(cfg, f, sessions[0]);
    h.header.size == 0 || EverEmptied(cfg, h, sessions[1..])
  }

  /** The bytes from `at` to `at + n` can be read and are `bytes`. */
  predicate Readable(f: Flash, at: nat, bytes: seq<u8>) {
    at + |bytes| <= f.header.size && at + |bytes| <= |f.data| && f.data[at..at + |bytes|] == bytes
  }

  /**
   * Over any run of sessions, with power cut during operations and during boots: what was
   * readable stays readable, unless an operation was meant to change it, the storage was
   * found empty after some session, or two contents shared a CRC. It is never half changed.
   */
  lemma {:induction false} RunIsDetected(cfg: Config, f: Flash, sessions: seq<Session>, at: nat, bytes: seq<u8>)
    requires Consistent(cfg, f) && Readable(f, at, bytes) && NoCollision(cfg, f, sessions)
    requires forall i :: 0 <= i < |sessions| ==> Spares(sessions[i].event.op, at, |bytes|)
    ensures var r := AfterSessions(cfg, f, sessions);
            Consistent(cfg, r) && (Readable(r, at, bytes) || EverEmptied(cfg, f, sessions))
    decreases |sessions|
  {
    if sessions != [] {
      var s, rest := sessions[0], sessions[1..];
      var h := AfterSession(cfg, f, s);
      SessionIsDetected(cfg, f, s);
      assert Spares(s.event.op, at, |bytes|);
      if h.header.size == 0 {
        SessionsConsistent(cfg, h, rest);
      } else {
        if Content(h) == Content(f) {
          SameContentReadable(f, h, at, bytes);
        } else {
          CompletedSpares(cfg, f, s.event, at, bytes);
        }
        RunIsDetected(cfg, h, rest, at, bytes);
      }
    }
  }

  lemma {:induction false} SessionsConsistent(cfg: Config, f: Flash, sessions: seq<Session>)
    requires Consistent(cfg, f)
    ensures Consistent(cfg, AfterSessions(cfg, f, sessions))
    decreases |sessions|
  {
    if sessions != [] {
      SessionIsDetected(cfg, f, sessions[0]);
      SessionsConsistent(cfg, AfterSession(cfg, f, sessions[0]), sessions[1..]);
    }
  }

  lemma SameContentReadable(f: Flash, h: Flash, at: nat, bytes: seq<u8>)
    requires Content(h) == Content(f) && Readable(f, at, bytes)
    ensures Readable(h, at, bytes)
  {
    var n := Min(f.header.size, |f.data|);
    assert |Content(h).1| == |Content(f).1| == n;
    SliceOfPrefix(f.data, n, at, at + |bytes|);
    SliceOfPrefix(h.data, n, at, at + |bytes|);
  }

  lemma SliceOfPrefix(s: seq<u8>, n: nat, a: nat, b: nat)
    requires a <= b <= n <= |s|
    ensures s[..n][a..b] == s[a..b]
  {
  }

  lemma CompletedSpares(cfg: Config, f: Flash, e: Event, at: nat, bytes: seq<u8>)
    requires Consistent(cfg, f) && Readable(f, at, bytes) && Spares(e.op, at, |bytes|)
    requires e.power >= |Plan(cfg, f, e.op)|
    ensures Readable(AfterEvent(cfg, f, e), at, bytes)
  {
    var plan := Plan(cfg, f, e.op);
    EnoughPower(f, plan, e.power);
    UncutStep(cfg, f, e.op);
    SparedBytes(Abstract(f), [e.op], at, |bytes|);
    assert Steps(Abstract(f), [e.op]) == Step(Abstract(f), e.op) by {
      assert [e.op][1..] == [];
    }
  }

  lemma {:induction false} EnoughPower(f: Flash, ws: seq<NvmWrite>, power: nat)
    requires power >= |ws|
    ensures Run(f, ws, power) == Run(f, ws, |ws|)
    decreases |ws|
  {
    if ws != [] {
      EnoughPower(Apply(f, ws[0]), ws[1..], power - 1);
    }
  }

  // ---- Runs without power cuts: a byte array with a high-water mark ---------------------

  datatype Store = Store(bytes: seq<u8>, mark: nat)

  function Abstract(f: Flash): Store {
    Store(f.data, f.header.size)
  }

  function Step(s: Store, op: Op): (r: Store)
    ensures |r.bytes| == |s.bytes|
  {
    match op
    case Init => s
    case Reset => Store(Zeros(|s.bytes|), 0)
    case Write(buf, at) =>
      if buf == [] || at + |buf| > |s.bytes| then s
      else Store(Overwrite(s.bytes, at, buf), if s.mark < at + |buf| then at + |buf| else s.mark)
    case Version(v) => s
    case NextVersion => s
  }

  function Steps(s: Store, ops: seq<Op>): (r: Store)
    ensures |r.bytes| == |s.bytes|
    decreases |ops|
  {
    if ops == [] then s else Steps(Step(s, ops[0]), ops[1..])
  }

  /** The flash after operations that all complete. */
  function AfterAll(cfg: Config, f: Flash, ops: seq<Op>): (r: Flash)
    requires |f.data| == cfg.capacity
    ensures |r.data| == cfg.capacity
    decreases |ops|
  {
    if ops == [] then f
    else AfterAll(cfg, Run(f, Plan(cfg, f, ops[0]), |Plan(cfg, f, ops[0])|), ops[1..])
  }

  ghost predicate ZeroBelow(data: seq<u8>, n: nat) {
    forall i :: 0 <= i < |data| && i < n ==> data[i] == 0
  }

  /** Erasing that completes zeroes the data area from `offset` on. */
  lemma {:induction false} EraseZeroes(cfg: Config, f: Flash, offset: nat, power: nat)
    requires |f.data| == cfg.capacity && offset <= cfg.capacity && f.header == Fresh(cfg)
    requires f.crc == Crc(cfg, f) && ZeroBelow(f.data, offset)
    requires power >= |ErasePlan(cfg.capacity, offset) + LastPlan(cfg)|
    ensures var g := Run(f, ErasePlan(cfg.capacity, offset) + LastPlan(cfg), power);
            ZeroBelow(g.data, cfg.capacity)
    decreases cfg.capacity - offset
  {
    EraseStep(f, cfg.capacity, offset, LastPlan(cfg), power);
    if offset + ERASE_BLOCK < cfg.capacity {
      EraseZeroes(cfg, Apply(f, SetData(offset, Zeros(ERASE_BLOCK))), offset + ERASE_BLOCK, power - 1);
    } else if offset < cfg.capacity {
      LastStep(cfg, Apply(f, SetData(offset, Zeros(cfg.capacity - offset))), power - 1);
    } else if cfg.capacity > 0 {
      LastStep(cfg, f, power);
    }
  }

  /** A reset that completes zeroes every data byte, from whatever flash it starts. */
  lemma ResetZeroes(cfg: Config, f: Flash, power: nat)
    requires |f.data| == cfg.capacity && power >= |Plan(cfg, f, Reset)|
    ensures var g := AfterEvent(cfg, f, Event(Reset, power));
            Consistent(cfg, g) && g.data == Zeros(cfg.capacity) && g.header == Fresh(cfg)
  {
    ResetShape(cfg, f, power);
    var rest := ErasePlan(cfg.capacity, 0) + LastPlan(cfg);
    assert Plan(cfg, f, Reset) == ResetPlan(cfg) + rest;
    ResetSteps(cfg, f, rest, power);
    var g := f.(header := Fresh(cfg));
    var h := g.(crc := Crc(cfg, g));
    assert Content(h) == Content(g);
    EraseZeroes(cfg, h, 0, power - 2);
  }

  /** One completed operation keeps the storage usable and does what its abstract step says. */
  lemma UncutStep(cfg: Config, f: Flash, op: Op)
    requires Consistent(cfg, f)
    ensures var g := Run(f, Plan(cfg, f, op), |Plan(cfg, f, op)|);
            Consistent(cfg, g) && Abstract(g) == Step(Abstract(f), op)
  {
    var power := |Plan(cfg, f, op)|;
    match op
    case Init => InitRecovers(cfg, f, power);
    case Reset => ResetZeroes(cfg, f, power);
    case Write(buf, at) =>
      if WriteRefusal(cfg, |buf|, at) == SUCCESS {
        WriteSteps(cfg, f, buf, at, power);
        var h := Written(f, buf, at);
        assert Content(h.(crc := Crc(cfg, h))) == Content(h);
      }
    case Version(v) => VersionUncut(cfg, f, v);
    case NextVersion => VersionUncut(cfg, f, Bumped(f.header.dataVersion));
  }

  lemma VersionUncut(cfg: Config, f: Flash, v: u32)
    requires Consistent(cfg, f)
    ensures var g := Run(f, VersionPlan(cfg, f, v), 2);
            Consistent(cfg, g) && Abstract(g) == Abstract(f)
  {
    VersionSteps(cfg, f, v, 2);
    var g := f.(header := f.header.(dataVersion := v));
    assert Content(g.(crc := Crc(cfg, g))) == Content(g);
  }

  /** Over any run without power cuts the storage is a byte array with a high-water mark. */
  lemma {:induction false} UncutRun(cfg: Config, f: Flash, ops: seq<Op>)
    requires Consistent(cfg, f)
    ensures var g := AfterAll(cfg, f, ops);
            Consistent(cfg, g) && Abstract(g) == Steps(Abstract(f), ops)
    decreases |ops|
  {
    if ops != [] {
      UncutStep(cfg, f, ops[0]);
      UncutRun(cfg, Run(f, Plan(cfg, f, ops[0]), |Plan(cfg, f, ops[0])|), ops[1..]);
    }
  }

  // ---- What is read back -------------------------------------------------------------

  /** The operation leaves the bytes from `at` to `at + n` alone. */
  predicate Spares(op: Op, at: nat, n: nat) {
    match op
    case Init => true
    case Reset => false
    case Write(buf, from) => from + |buf| <= at || at + n <= from
    case Version(v) => true
    case NextVersion => true
  }

  lemma {:induction false} SparedBytes(s: Store, ops: seq<Op>, at: nat, n: nat)
    requires at + n <= s.mark && at + n <= |s.bytes|
    requires forall i :: 0 <= i < |ops| ==> Spares(ops[i], at, n)
    ensures var t := Steps(s, ops); at + n <= t.mark && t.bytes[at..at + n] == s.bytes[at..at + n]
    decreases |ops|
  {
    if ops != [] {
      var t := Step(s, ops[0]);
      assert Spares(ops[0], at, n);
      assert t.bytes[at..at + n] == s.bytes[at..at + n] by {
        forall i | at <= i < at + n ensures t.bytes[i] == s.bytes[i] { }
      }
      SparedBytes(t, ops[1..], at, n);
    }
  }

  /**
   * What a completed write stored is what a later read gives back, after any number of
   * completed operations that do not write over it or reset the storage.
   */
  lemma ReadBack(cfg: Config, f: Flash, buf: seq<u8>, at: u32, later: seq<Op>)
    requires Consistent(cfg, f) && WriteRefusal(cfg, |buf|, at) == SUCCESS
    requires forall i :: 0 <= i < |later| ==> Spares(later[i], at, |buf|)
    ensures var g := AfterAll(cfg, f, [Write(buf, at)] + later);
            at + |buf| <= g.header.size <= cfg.capacity && g.data[at..at + |buf|] == buf
  {
    var ops := [Write(buf, at)] + later;
    UncutRun(cfg, f, ops);
    assert ops[1..] == later;
    var s := Step(Abstract(f), Write(buf, at));
    assert s.bytes[at..at + |buf|] == buf;
    SparedBytes(s, later, at, |buf|);
  }

  // ---- What an interrupted reset leaves behind -------------------------------------------

  /** How many data bytes a reset has zeroed when power lasts for `power` of its writes. */
  function Extent(capacity: nat, power: nat): nat {
    if power < 2 then 0 else Min(ERASE_BLOCK * (power - 2), capacity)
  }

  lemma {:induction false} EraseCut(cfg: Config, f: Flash, offset: nat, power: nat, i: nat)
    requires |f.data| == cfg.capacity && i < cfg.capacity && offset <= cfg.capacity && f.header == Fresh(cfg)
    ensures var g := Run(f, ErasePlan(cfg.capacity, offset) + LastPlan(cfg), power);
            g.data[i] == if offset <= i < offset + ERASE_BLOCK * power then 0 else f.data[i]
    decreases cfg.capacity - offset
  {
    EraseStep(f, cfg.capacity, offset, LastPlan(cfg), power);
    if offset + ERASE_BLOCK < cfg.capacity {
      if power > 0 {
        EraseCut(cfg, Apply(f, SetData(offset, Zeros(ERASE_BLOCK))), offset + ERASE_BLOCK, power - 1, i);
      }
    } else if offset < cfg.capacity {
      if power > 0 {
        LastStep(cfg, Apply(f, SetData(offset, Zeros(cfg.capacity - offset))), power - 1);
      }
    } else {
      LastStep(cfg, f, power);
    }
  }

  /** Cut anywhere, a reset has zeroed exactly the first bytes and left the others as they were. */
  lemma ResetCut(cfg: Config, f: Flash, power: nat, i: nat)
    requires |f.data| == cfg.capacity && i < cfg.capacity
    ensures var g := AfterEvent(cfg, f, Event(Reset, power));
            g.data[i] == if i < Extent(cfg.capacity, power) then 0 else f.data[i]
  {
    var rest := ErasePlan(cfg.capacity, 0) + LastPlan(cfg);
    assert Plan(cfg, f, Reset) == ResetPlan(cfg) + rest;
    ResetSteps(cfg, f, rest, power);
    if power >= 2 {
      var g := f.(header := Fresh(cfg));
      EraseCut(cfg, g.(crc := Crc(cfg, g)), 0, power - 2, i);
    }
  }

  /** The operation is a write that takes the high-water mark beyond position i. */
  predicate Reaches(op: Op, i: nat, capacity: nat) {
    op.Write? && op.buf != [] && i < op.at + |op.buf| <= capacity
  }

  lemma {:induction false} MarkAfter(s: Store, ops: seq<Op>, i: nat)
    requires i < |s.bytes| && forall j :: 0 <= j < |ops| ==> Spares(ops[j], i, 1)
    ensures Steps(s, ops).bytes[i] == s.bytes[i]
    ensures i < Steps(s, ops).mark <==> i < s.mark || exists j :: 0 <= j < |ops| && Reaches(ops[j], i, |s.bytes|)
    decreases |ops|
  {
    if ops != [] {
      assert Spares(ops[0], i, 1);
      var t, rest := Step(s, ops[0]), ops[1..];
      assert i < t.mark <==> i < s.mark || Reaches(ops[0], i, |s.bytes|);
      MarkAfter(t, rest, i);
      if j :| 0 <= j < |ops| && Reaches(ops[j], i, |s.bytes|) {
        if j > 0 { assert Reaches(rest[j - 1], i, |s.bytes|); }
      }
      if j :| 0 <= j < |rest| && Reaches(rest[j], i, |s.bytes|) {
        assert Reaches(ops[j + 1], i, |s.bytes|);
      }
    }
  }

  /**
   * A byte stored before a reset that was cut, but not before its first write, is back in
   * reach after the next initialisation exactly when a later write ends beyond it; it still
   * has its old value exactly as far as the erasing did not get. (The operations in between
   * are those that do not write that byte themselves.)
   */
  lemma StaleByte(cfg: Config, f: Flash, power: nat, more: nat, later: seq<Op>, i: nat)
    requires Sane(cfg, f) && i < cfg.capacity && power > 0
    requires more >= |Plan(cfg, AfterEvent(cfg, f, Event(Reset, power)), Init)|
    requires forall j :: 0 <= j < |later| ==> Spares(later[j], i, 1)
    ensures var h := AfterEvent(cfg, AfterEvent(cfg, f, Event(Reset, power)), Event(Init, more));
            var r := AfterAll(cfg, h, later);
            && (i < r.header.size <==> exists j :: 0 <= j < |later| && Reaches(later[j], i, cfg.capacity))
            && r.data[i] == if i < Extent(cfg.capacity, power) then 0 else f.data[i]
  {
    var g := AfterEvent(cfg, f, Event(Reset, power));
    EventSane(cfg, f, Event(Reset, power));
    ResetShape(cfg, f, power);
    ResetCut(cfg, f, power, i);
    InitRecovers(cfg, g, more);
    var h := AfterEvent(cfg, g, Event(Init, more));
    assert h.header == Fresh(cfg) && h.data == g.data;
    UncutRun(cfg, h, later);
    MarkAfter(Abstract(h), later, i);
  }

  /** It happens: a reset of ten bytes cut after two writes, an initialisation, a write at the
      end, and the first byte of old is read again. */
  lemma StaleByteRead(cfg: Config, f: Flash)
    requires Sane(cfg, f) && cfg.capacity == 10
    ensures var g := AfterEvent(cfg, AfterEvent(cfg, f, Event(Reset, 2)), Event(Init, 2));
            var r := AfterAll(cfg, g, [Write([1], 9)]);
            r.header.size > 0 && r.data[0] == f.data[0]
  {
    var later := [Write([1], 9)];
    assert Reaches(later[0], 0, cfg.capacity);
    StaleByte(cfg, f, 2, 2, later, 0);
  }
}
