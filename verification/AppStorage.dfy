/**
 * The application storage of lib_standard_app: a CRC, a header and a data area in flash
 * memory. Every nvm_write is one atomic step, and power may be cut between any two.
 */
module AppStorage {

  import opened Basics

  const TAG := "NVRA"
  const STRUCT_VERSION := 1
  const INITIAL_DATA_VERSION: u32 := 1
  const ERASE_BLOCK: nat := 256

  const SUCCESS := 0
  const INVALID_ARGUMENT := -1
  const NO_DATA_AVAILABLE := -2
  const OVERFLOW := -3
  const INVALID_HEADER := -4
  const CORRUPTED := -5

  datatype Header = Header(tag: string, size: u32, structVersion: nat, properties: nat, dataVersion: u32)

  datatype Flash = Flash(crc: nat, header: Header, data: seq<u8>)

  /** The build settings, and the CRC as some function of the bytes it covers. */
  datatype Config = Config(capacity: u32, properties: nat, sum: (Header, seq<u8>) -> nat)

  // ---- The writes and what they do -----------------------------------------------------

  datatype NvmWrite =
    | SetHeader(header: Header)
    | SetSize(size: u32)
    | SetVersion(version: u32)
    | SetData(offset: nat, bytes: seq<u8>)
    | SetCrc(crc: nat)

  /** Only writes that stay inside the data area are ever made: see Device.Nvm. */
  function Overwrite(data: seq<u8>, offset: nat, bytes: seq<u8>): (r: seq<u8>)
    ensures |r| == |data|
  {
    if offset + |bytes| <= |data| then data[..offset] + bytes + data[offset + |bytes|..] else data
  }

  predicate InRange(f: Flash, w: NvmWrite) {
    w.SetData? ==> w.offset + |w.bytes| <= |f.data|
  }

  function Apply(f: Flash, w: NvmWrite): (r: Flash)
    ensures |r.data| == |f.data|
  {
    match w
    case SetHeader(h) => f.(header := h)
    case SetSize(n) => f.(header := f.header.(size := n))
    case SetVersion(v) => f.(header := f.header.(dataVersion := v))
    case SetData(offset, bytes) => f.(data := Overwrite(f.data, offset, bytes))
    case SetCrc(c) => f.(crc := c)
  }

  /** The flash after the writes `ws`, of which power lasts for the first `power`. */
  function Run(f: Flash, ws: seq<NvmWrite>, power: nat): (r: Flash)
    ensures |r.data| == |f.data|
    decreases |ws|
  {
    if ws == [] || power == 0 then f else Run(Apply(f, ws[0]), ws[1..], power - 1)
  }

  lemma RunCons(f: Flash, w: NvmWrite, ws: seq<NvmWrite>, power: nat)
    ensures Run(f, [w] + ws, power) == if power == 0 then f else Run(Apply(f, w), ws, power - 1)
  {
    assert ([w] + ws)[1..] == ws;
  }

  lemma RunTwo(f: Flash, v: NvmWrite, w: NvmWrite, ws: seq<NvmWrite>, power: nat)
    ensures Run(f, [v, w] + ws, power) ==
            if power == 0 then f
            else if power == 1 then Apply(f, v)
            else Run(Apply(Apply(f, v), w), ws, power - 2)
  {
    assert [v, w] + ws == [v] + ([w] + ws);
    RunCons(f, v, [w] + ws, power);
    if power > 0 {
      RunCons(Apply(f, v), w, ws, power - 1);
    }
  }

  // ---- The operations and the writes they plan --------------------------------------------

  datatype Op =
    | Init
    | Reset
    | Write(buf: seq<u8>, at: u32)
    | Version(version: u32)
    | NextVersion

  function Min(a: nat, b: nat): nat { if a < b then a else b }

  /** What the CRC covers: the header and the first header.size bytes of data. */
  function Content(f: Flash): (Header, seq<u8>) {
    (f.header, f.data[..Min(f.header.size, |f.data|)])
  }

  function Crc(cfg: Config, f: Flash): nat {
    cfg.sum(Content(f).0, Content(f).1)
  }

  predicate Tagged(f: Flash) {
    f.header.tag == TAG
  }

  function Fresh(cfg: Config): Header {
    Header(TAG, 0, STRUCT_VERSION, cfg.properties, INITIAL_DATA_VERSION)
  }

  function Status(cfg: Config, f: Flash): int {
    if !Tagged(f) then INVALID_HEADER else if Crc(cfg, f) != f.crc then CORRUPTED else SUCCESS
  }

  function ResetPlan(cfg: Config): seq<NvmWrite> {
    [SetHeader(Fresh(cfg)), SetCrc(cfg.sum(Fresh(cfg), []))]
  }

  function ErasePlan(capacity: nat, offset: nat): (ws: seq<NvmWrite>)
    requires offset <= capacity
    decreases capacity - offset
  {
    if offset + ERASE_BLOCK < capacity
    then [SetData(offset, Zeros(ERASE_BLOCK))] + ErasePlan(capacity, offset + ERASE_BLOCK)
    else if offset < capacity then [SetData(offset, Zeros(capacity - offset))]
    else []
  }

  /** The CRC is brought up to date once more when anything was erased. */
  function LastPlan(cfg: Config): (ws: seq<NvmWrite>) {
    if cfg.capacity > 0 then [SetCrc(cfg.sum(Fresh(cfg), []))] else []
  }

  function WriteRefusal(cfg: Config, n: nat, at: u32): (code: int) {
    if n == 0 || at + n >= 0x1_0000_0000 then INVALID_ARGUMENT
    else if at + n > cfg.capacity then OVERFLOW
    else SUCCESS
  }

  /** The flash once a write is complete, before its CRC is brought up to date. */
  function Written(f: Flash, buf: seq<u8>, at: u32): (r: Flash)
    requires at + |buf| <= |f.data| < 0x1_0000_0000
    ensures |r.data| == |f.data|
  {
    var g := f.(data := Overwrite(f.data, at, buf));
    if f.header.size < at + |buf| then g.(header := f.header.(size := at + |buf|)) else g
  }

  function Bumped(version: u32): u32 {
    if version == 0xFFFF_FFFF then INITIAL_DATA_VERSION else version + 1
  }

  /** The writes that an operation makes when it is not interrupted. */
  function Plan(cfg: Config, f: Flash, op: Op): (ws: seq<NvmWrite>)
    requires |f.data| == cfg.capacity
  {
    match op
    case Init => if Status(cfg, f) == SUCCESS then [] else ResetPlan(cfg)
    case Reset =>
      ResetPlan(cfg) + ErasePlan(cfg.capacity, 0) + LastPlan(cfg)
    case Write(buf, at) =>
      if WriteRefusal(cfg, |buf|, at) != SUCCESS then []
      else
        [SetData(at, buf)] +
        (if f.header.size < at + |buf| then [SetSize(at + |buf|)] else []) +
        [SetCrc(Crc(cfg, Written(f, buf, at)))]
    case Version(v) => VersionPlan(cfg, f, v)
    case NextVersion => VersionPlan(cfg, f, Bumped(f.header.dataVersion))
  }

  function VersionPlan(cfg: Config, f: Flash, v: u32): (ws: seq<NvmWrite>) {
    [SetVersion(v), SetCrc(Crc(cfg, f.(header := f.header.(dataVersion := v))))]
  }

  lemma ResetSteps(cfg: Config, f: Flash, ws: seq<NvmWrite>, power: nat)
    ensures var g := f.(header := Fresh(cfg));
            && Crc(cfg, g) == cfg.sum(Fresh(cfg), [])
            && Run(f, ResetPlan(cfg) + ws, power) ==
               (if power == 0 then f else if power == 1 then g else Run(g.(crc := Crc(cfg, g)), ws, power - 2))
    ensures ResetPlan(cfg) + [] == ResetPlan(cfg)
  {
    var g := f.(header := Fresh(cfg));
    assert Content(g).1 == [];
    RunTwo(f, SetHeader(Fresh(cfg)), SetCrc(cfg.sum(Fresh(cfg), [])), ws, power);
  }

  lemma WriteSteps(cfg: Config, f: Flash, buf: seq<u8>, at: u32, power: nat)
    requires |f.data| == cfg.capacity && WriteRefusal(cfg, |buf|, at) == SUCCESS
    ensures var plan, g, h := Plan(cfg, f, Write(buf, at)), f.(data := Overwrite(f.data, at, buf)), Written(f, buf, at);
            && |plan| == (if g == h then 2 else 3)
            && Run(f, plan, power) ==
               if power == 0 then f else if power == 1 then g
               else if g != h && power == 2 then h else h.(crc := Crc(cfg, h))
  {
    var h := Written(f, buf, at);
    var last := SetCrc(Crc(cfg, h));
    if f.header.size < at + |buf| {
      assert Plan(cfg, f, Write(buf, at)) == [SetData(at, buf), SetSize(at + |buf|)] + [last];
      RunTwo(f, SetData(at, buf), SetSize(at + |buf|), [last], power);
    } else {
      assert Plan(cfg, f, Write(buf, at)) == [SetData(at, buf), last] + [];
      RunTwo(f, SetData(at, buf), last, [], power);
    }
  }

  lemma VersionSteps(cfg: Config, f: Flash, v: u32, power: nat)
    ensures var g := f.(header := f.header.(dataVersion := v));
            Run(f, VersionPlan(cfg, f, v), power) ==
            if power == 0 then f else if power == 1 then g else g.(crc := Crc(cfg, g))
  {
    var last := SetCrc(Crc(cfg, f.(header := f.header.(dataVersion := v))));
    assert VersionPlan(cfg, f, v) == [SetVersion(v), last] + [];
    RunTwo(f, SetVersion(v), last, [], power);
  }

  // ---- The device -----------------------------------------------------------------

  /** What an operation gives back: nothing when power was cut first. */
  datatype Outcome = Cut | Returned(code: int)

  class Device {
    const cfg: Config
    var crc: nat
    var header: Header
    var data: seq<u8>
    /** How many more writes power will last for. */
    var power: nat

    ghost predicate Valid()
      reads this
    {
      |data| == cfg.capacity
    }

    function Image(): Flash
      reads this
    {
      Flash(crc, header, data)
    }

    constructor (cfg: Config, f: Flash, power: nat)
      requires |f.data| == cfg.capacity
      ensures Valid() && this.cfg == cfg && Image() == f && this.power == power
    {
      this.cfg := cfg;
      crc, header, data, this.power := f.crc, f.header, f.data, power;
    }

    method Nvm(w: NvmWrite) returns (alive: bool)
      requires Valid() && InRange(Image(), w)
      modifies this
      ensures Valid() && alive == (old(power) > 0)
      ensures if alive then power == old(power) - 1 && Image() == Apply(old(Image()), w)
              else power == 0 && Image() == old(Image())
    {
      alive := power > 0;
      if alive {
        power := power - 1;
        match w
        case SetHeader(h) => header := h;
        case SetSize(n) => header := header.(size := n);
        case SetVersion(v) => header := header.(dataVersion := v);
        case SetData(offset, bytes) => data := Overwrite(data, offset, bytes);
        case SetCrc(c) => crc := c;
      }
    }

    method IsInitialized() returns (status: int)
      requires Valid()
      ensures status == Status(cfg, Image())
    {
      if header.tag != TAG {
        return INVALID_HEADER;
      }
      var sum := cfg.sum(header, data[..Min(header.size, |data|)]);
      if sum != crc {
        return CORRUPTED;
      }
      return SUCCESS;
    }

    method UpdateCrc() returns (alive: bool)
      requires Valid()
      modifies this
      ensures Valid() && alive == (old(power) > 0)
      ensures if alive then power == old(power) - 1 && Image() == old(Image()).(crc := Crc(cfg, old(Image())))
              else power == 0 && Image() == old(Image())
    {
      var sum := cfg.sum(header, data[..Min(header.size, |data|)]);
      alive := Nvm(SetCrc(sum));
    }

    method SystemHeaderReset() returns (alive: bool)
      requires Valid()
      modifies this
      ensures Valid() && alive == (old(power) >= 2)
      ensures Image() == Run(old(Image()), ResetPlan(cfg), old(power))
      ensures alive ==> power == old(power) - 2
    {
      ResetSteps(cfg, Image(), [], power);
      alive := Nvm(SetHeader(Fresh(cfg)));
      if alive {
        alive := UpdateCrc();
      }
    }

    method AppStorageInit() returns (r: Outcome)
      requires Valid()
      modifies this
      ensures Valid() && var plan := Plan(cfg, old(Image()), Init);
              && Image() == Run(old(Image()), plan, old(power))
              && r == if old(power) < |plan| then Cut
                      else Returned(if Tagged(old(Image())) then Status(cfg, old(Image())) else SUCCESS)
    {
      var status := IsInitialized();
      if status == SUCCESS {
        return Returned(SUCCESS);
      }
      var alive := SystemHeaderReset();
      if !alive {
        return Cut;
      }
      return Returned(if status == INVALID_HEADER then SUCCESS else status);
    }

    method AppStorageWrite(buf: seq<u8>, at: u32) returns (r: Outcome)
      requires Valid()
      modifies this
      ensures Valid() && var plan := Plan(cfg, old(Image()), Write(buf, at));
              && Image() == Run(old(Image()), plan, old(power))
              && r == if old(power) < |plan| then Cut
                      else if WriteRefusal(cfg, |buf|, at) != SUCCESS
                      then Returned(WriteRefusal(cfg, |buf|, at)) else Returned(|buf|)
    {
      if |buf| == 0 {
        return Returned(INVALID_ARGUMENT);
      }
      if at + |buf| >= 0x1_0000_0000 {
        return Returned(INVALID_ARGUMENT);
      }
      var maxOffset: u32 := at + |buf|;
      if maxOffset > cfg.capacity {
        return Returned(OVERFLOW);
      }
      WriteSteps(cfg, Image(), buf, at, power);
      var alive := Nvm(SetData(at, buf));
      if !alive {
        return Cut;
      }
      if header.size < maxOffset {
        alive := Nvm(SetSize(maxOffset));
        if !alive {
          return Cut;
        }
      }
      alive := UpdateCrc();
      return if alive then Returned(|buf|) else Cut;
    }

    /** Bytes beyond the data area are not part of this model, so the size must fit it. */
    method AppStorageRead(n: u32, at: u32) returns (code: int, buf: seq<u8>)
      requires Valid() && header.size <= cfg.capacity
      ensures if n == 0 || at + n >= 0x1_0000_0000 then code == INVALID_ARGUMENT && buf == []
              else if at + n > header.size then code == NO_DATA_AVAILABLE && buf == []
              else code == n && buf == data[at..at + n]
    {
      if n == 0 {
        return INVALID_ARGUMENT, [];
      }
      if at + n >= 0x1_0000_0000 {
        return INVALID_ARGUMENT, [];
      }
      if at + n > header.size {
        return NO_DATA_AVAILABLE, [];
      }
      return n, data[at..at + n];
    }

    method SetDataVersion(v: u32) returns (r: Outcome)
      requires Valid()
      modifies this
      ensures Valid() && Image() == Run(old(Image()), VersionPlan(cfg, old(Image()), v), old(power))
      ensures r == if old(power) < 2 then Cut else Returned(SUCCESS)
    {
      VersionSteps(cfg, Image(), v, power);
      var alive := Nvm(SetVersion(v));
      if alive {
        alive := UpdateCrc();
      }
      return if alive then Returned(SUCCESS) else Cut;
    }

    method IncrementDataVersion() returns (r: Outcome)
      requires Valid()
      modifies this
      ensures Valid() && var plan := Plan(cfg, old(Image()), NextVersion);
              && Image() == Run(old(Image()), plan, old(power))
              && r == if old(power) < |plan| then Cut else Returned(SUCCESS)
    {
      var version: u32 := (header.dataVersion + 1) % 0x1_0000_0000;
      if version == 0 {
        version := INITIAL_DATA_VERSION;
      }
      r := SetDataVersion(version);
    }

    method AppStorageReset() returns (r: Outcome)
      requires Valid()
      modifies this
      ensures Valid() && var plan := Plan(cfg, old(Image()), Reset);
              && Image() == Run(old(Image()), plan, old(power))
              && r == if old(power) < |plan| then Cut else Returned(SUCCESS)
    {
      ghost var last := LastPlan(cfg);
      assert Plan(cfg, Image(), Reset) == ResetPlan(cfg) + (ErasePlan(cfg.capacity, 0) + last);
      ResetSteps(cfg, Image(), ErasePlan(cfg.capacity, 0) + last, power);
      ResetSteps(cfg, Image(), [], power);
      var alive := SystemHeaderReset();
      if !alive {
        return Cut;
      }
      assert header == Fresh(cfg);
      alive := EraseAll();
      return if alive then Returned(SUCCESS) else Cut;
    }

    /** The rest of a reset, after the header: zeroing block by block, then the CRC. */
    method EraseAll() returns (alive: bool)
      requires Valid() && header == Fresh(cfg)
      modifies this
      ensures Valid() && var plan := ErasePlan(cfg.capacity, 0) + LastPlan(cfg);
              && Image() == Run(old(Image()), plan, old(power))
              && alive == (old(power) >= |plan|)
    {
      var offset: nat := 0;
      var needUpdate := false;
      if cfg.capacity > ERASE_BLOCK {
        while offset < cfg.capacity - ERASE_BLOCK
          invariant Valid() && 0 <= offset < cfg.capacity && header == Fresh(cfg)
          invariant Run(Image(), ErasePlan(cfg.capacity, offset) + LastPlan(cfg), power) ==
                    Run(old(Image()), ErasePlan(cfg.capacity, 0) + LastPlan(cfg), old(power))
          invariant |ErasePlan(cfg.capacity, offset)| - power == |ErasePlan(cfg.capacity, 0)| - old(power)
        {
          EraseStep(Image(), cfg.capacity, offset, LastPlan(cfg), power);
          alive := Nvm(SetData(offset, Zeros(ERASE_BLOCK)));
          if !alive {
            return;
          }
          offset := offset + ERASE_BLOCK;
        }
        needUpdate := true;
      }
      alive := EraseTail(offset, needUpdate);
    }

    /** The last, possibly shorter, block and the CRC. */
    method EraseTail(offset: nat, erased: bool) returns (alive: bool)
      requires Valid() && header == Fresh(cfg) && cfg.capacity - ERASE_BLOCK <= offset <= cfg.capacity
      requires erased ==> cfg.capacity > 0
      requires offset == cfg.capacity > 0 ==> erased
      modifies this
      ensures Valid() && var plan := ErasePlan(cfg.capacity, offset) + LastPlan(cfg);
              && Image() == Run(old(Image()), plan, old(power))
              && alive == (old(power) >= |plan|)
    {
      TailRun(cfg, Image(), offset, power);
      var needUpdate := erased;
      alive := true;
      if cfg.capacity > offset {
        alive := Nvm(SetData(offset, Zeros(cfg.capacity - offset)));
        if !alive {
          return;
        }
        needUpdate := true;
      }
      if needUpdate {
        alive := UpdateCrc();
      }
    }
  }

  /** The last block, if any of it is left, and the CRC, if anything was erased. */
  lemma TailRun(cfg: Config, f: Flash, offset: nat, power: nat)
    requires f.header == Fresh(cfg) && cfg.capacity - ERASE_BLOCK <= offset <= cfg.capacity
    ensures var plan := ErasePlan(cfg.capacity, offset) + LastPlan(cfg);
            var g := if offset < cfg.capacity then Apply(f, SetData(offset, Zeros(cfg.capacity - offset))) else f;
            var n := if offset < cfg.capacity then 1 else 0;
            && |plan| == n + (if cfg.capacity > 0 then 1 else 0)
            && Run(f, plan, power) ==
               if power < n then f else if cfg.capacity > 0 && power > n then g.(crc := Crc(cfg, g)) else g
  {
    EraseStep(f, cfg.capacity, offset, LastPlan(cfg), power);
    if offset < cfg.capacity {
      if power > 0 { LastStep(cfg, Apply(f, SetData(offset, Zeros(cfg.capacity - offset))), power - 1); }
    } else if cfg.capacity > 0 {
      LastStep(cfg, f, power);
    }
  }

  lemma EraseStep(f: Flash, capacity: nat, offset: nat, last: seq<NvmWrite>, power: nat)
    requires offset <= capacity
    ensures var plan := ErasePlan(capacity, offset);
            if offset + ERASE_BLOCK < capacity then
              var w, rest := SetData(offset, Zeros(ERASE_BLOCK)), ErasePlan(capacity, offset + ERASE_BLOCK);
              && |plan| == 1 + |rest|
              && Run(f, plan + last, power) == if power == 0 then f else Run(Apply(f, w), rest + last, power - 1)
            else if offset < capacity then
              var w := SetData(offset, Zeros(capacity - offset));
              && |plan| == 1
              && Run(f, plan + last, power) == if power == 0 then f else Run(Apply(f, w), last, power - 1)
            else plan + last == last
  {
    if offset + ERASE_BLOCK < capacity {
      var w, rest := SetData(offset, Zeros(ERASE_BLOCK)), ErasePlan(capacity, offset + ERASE_BLOCK);
      assert ErasePlan(capacity, offset) + last == [w] + (rest + last);
      RunCons(f, w, rest + last, power);
    } else if offset < capacity {
      RunCons(f, SetData(offset, Zeros(capacity - offset)), last, power);
    }
  }

  lemma LastStep(cfg: Config, f: Flash, power: nat)
    requires cfg.capacity > 0 && f.header == Fresh(cfg)
    ensures Run(f, LastPlan(cfg), power) == if power == 0 then f else f.(crc := Crc(cfg, f))
  {
    assert Content(f).1 == [];
    assert LastPlan(cfg) == [SetCrc(Crc(cfg, f))] + [];
    RunCons(f, SetCrc(Crc(cfg, f)), [], power);
  }
}
