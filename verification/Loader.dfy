/**
 The AIBC loader and the worker catalog nested in it, as parsers over bytes. An
 artifact is what a file says; `EncodeArtifact` writes one and `Load` reads it.
 Workers in the catalog carry artifacts of their own, so loader and catalog call
 each other; every nested artifact is strictly shorter than what holds it.
 */
module Loader {
  import opened CText
  import opened Codec

  const MAX_SECTIONS: int := 32
  const MAX_OPCODE: int := 92
  const MAX_STRING_BYTES: int := 65536
  const MAX_BYTES_STORAGE: int := 32768
  const MAX_WORKERS: int := 1024
  const MAGIC: seq<Byte> := [65, 73, 66, 67]
  const VERSION: int := 2
  const TRANSPORT_ABI: int := 1
  const WORKER_HEADER: int := 52

  datatype Instr = Instr(opcode: int, operand: int)

  datatype Constant =
    | IntConst(n: int)
    | BoolConst(flag: Byte)         // any nonzero byte is true
    | StringConst(raw: seq<Byte>)
    | VoidConst
    | BytesConst(raw: seq<Byte>)
    | NullConst
    | NumberConst(bits: seq<Byte>)

  datatype Section =
    | Instructions(instrs: seq<Instr>)
    | Constants(consts: seq<Constant>)
    | Catalog(workers: seq<Worker>)
    | Other(kind: int, payload: seq<Byte>)

  datatype Worker = Worker(target: int, capabilities: int, artifact: Artifact)

  datatype Artifact = Artifact(flags: int, sections: seq<Section>, trailing: seq<Byte>)

  // ----- fields and items

  function Word(n: int): (b: seq<Byte>)
    ensures |b| == 8
  {
    if -TWO63 <= n < TWO63 then I64(n) else I64(0)
  }

  predicate WfInstr(i: Instr) {
    0 <= i.opcode <= 92 && -TWO63 <= i.operand < TWO63
  }

  function EncodeInstr(i: Instr): seq<Byte> {
    Field(i.opcode) + Word(i.operand)
  }

  function ParseInstr(b: seq<Byte>): Parsed<Instr> {
    if |b| < 12 || ReadU32(b) > MAX_OPCODE then Fail else Done(Instr(ReadU32(b), ReadI64(b[4..])), 12)
  }

  lemma InstrCodec()
    ensures Sound(ParseInstr, EncodeInstr, WfInstr) && Complete(ParseInstr, EncodeInstr, WfInstr)
  {
    forall b {:trigger ParseInstr(b)} | ParseInstr(b).Done?
      ensures WfInstr(ParseInstr(b).value) && 0 < ParseInstr(b).size <= |b| && b[..ParseInstr(b).size] == EncodeInstr(ParseInstr(b).value)
    {
      FieldWrites(b);
      ReadI64Writes(b[4..]);
      assert b[..12] == b[..4] + b[4..][..8];
    }
    forall x, rest {:trigger ParseInstr(EncodeInstr(x) + rest)} | WfInstr(x) ensures ParseInstr(EncodeInstr(x) + rest) == Done(x, |EncodeInstr(x)|) {
      var b := EncodeInstr(x) + rest;
      assert b == Field(x.opcode) + (Word(x.operand) + rest);
      FieldReads(x.opcode, Word(x.operand) + rest);
      I64Reads(x.operand, rest);
    }
  }

  predicate WfConst(c: Constant) {
    match c
    case IntConst(n) => -TWO63 <= n < TWO63
    case StringConst(raw) => |raw| < TWO32
    case BytesConst(raw) => |raw| < TWO32
    case NumberConst(bits) => |bits| == 8
    case _ => true
  }

  function EncodeConst(c: Constant): seq<Byte> {
    match c
    case IntConst(n) => [1] + Word(n)
    case BoolConst(flag) => [2, flag]
    case StringConst(raw) => [3] + Field(|raw|) + raw
    case VoidConst => [4]
    case BytesConst(raw) => [5] + Field(|raw|) + raw
    case NullConst => [6]
    case NumberConst(bits) => [7] + bits
  }

  /** The length and bytes after the kind byte of a string or bytes constant. */
  function ParseRaw(b: seq<Byte>): Parsed<seq<Byte>> {
    if |b| < 5 || 5 + ReadU32(b[1..]) > |b| then Fail else Done(b[5..5 + ReadU32(b[1..])], 5 + ReadU32(b[1..]))
  }

  function ParseConst(b: seq<Byte>): Parsed<Constant> {
    if b == [] then Fail
    else if b[0] == 1 then (if |b| < 9 then Fail else Done(IntConst(ReadI64(b[1..])), 9))
    else if b[0] == 7 then (if |b| < 9 then Fail else Done(NumberConst(b[1..9]), 9))
    else if b[0] == 2 then (if |b| < 2 then Fail else Done(BoolConst(b[1]), 2))
    else if b[0] == 6 then Done(NullConst, 1)
    else if b[0] == 3 then (match ParseRaw(b) case Fail => Fail case Done(raw, size) => Done(StringConst(raw), size))
    else if b[0] == 4 then Done(VoidConst, 1)
    else if b[0] == 5 then (match ParseRaw(b) case Fail => Fail case Done(raw, size) => Done(BytesConst(raw), size))
    else Fail
  }

  lemma RawSound(b: seq<Byte>)
    requires ParseRaw(b).Done?
    ensures var r := ParseRaw(b); |r.value| < TWO32 && r.size <= |b| && b[..r.size] == [b[0]] + Field(|r.value|) + r.value
  {
    FieldWrites(b[1..]);
    var r := ParseRaw(b);
    assert b[1..][..4] == b[1..5];
    assert b[..r.size] == [b[0]] + b[1..5] + b[5..r.size];
  }

  lemma RawComplete(k: Byte, raw: seq<Byte>, rest: seq<Byte>)
    requires |raw| < TWO32
    ensures ParseRaw([k] + Field(|raw|) + raw + rest) == Done(raw, 5 + |raw|)
  {
    var b := [k] + Field(|raw|) + raw + rest;
    assert b[1..] == Field(|raw|) + (raw + rest);
    FieldReads(|raw|, raw + rest);
    assert b[5..] == b[1..][4..] == raw + rest;
    assert b[5..5 + |raw|] == raw;
  }

  lemma ConstSound(b: seq<Byte>)
    requires ParseConst(b).Done?
    ensures var r := ParseConst(b); WfConst(r.value) && 0 < r.size <= |b| && b[..r.size] == EncodeConst(r.value)
  {
    if b[0] == 1 {
      ReadI64Writes(b[1..]);
      assert b[..9] == [b[0]] + b[1..][..8];
    } else if b[0] == 7 {
      assert b[..9] == [b[0]] + b[1..9];
    } else if b[0] == 3 || b[0] == 5 {
      RawSound(b);
    }
  }

  lemma ConstComplete(c: Constant, rest: seq<Byte>)
    requires WfConst(c)
    ensures ParseConst(EncodeConst(c) + rest) == Done(c, |EncodeConst(c)|)
  {
    var b := EncodeConst(c) + rest;
    match c
    case IntConst(n) =>
      assert b[1..] == Word(n) + rest;
      I64Reads(n, rest);
    case NumberConst(bits) => assert b[1..9] == bits;
    case StringConst(raw) => RawComplete(3, raw, rest);
    case BytesConst(raw) => RawComplete(5, raw, rest);
    case _ =>
  }

  lemma ConstCodec()
    ensures Sound(ParseConst, EncodeConst, WfConst) && Complete(ParseConst, EncodeConst, WfConst)
  {
    forall b {:trigger ParseConst(b)} | ParseConst(b).Done?
      ensures WfConst(ParseConst(b).value) && 0 < ParseConst(b).size <= |b| && b[..ParseConst(b).size] == EncodeConst(ParseConst(b).value)
    {
      ConstSound(b);
    }
    forall x, rest {:trigger ParseConst(EncodeConst(x) + rest)} | WfConst(x) ensures ParseConst(EncodeConst(x) + rest) == Done(x, |EncodeConst(x)|) {
      ConstComplete(x, rest);
    }
  }

  // ----- worker identity

  const LANES: seq<int> := [2166136261, 2246822519, 3266489917, 668265263, 374761393, 1274126177, 42595009, 2048419325]

  /** One byte mixed into the eight 32-bit lanes. */
  function Mix(lanes: seq<int>, v: Byte): (r: seq<int>)
    requires |lanes| == 8
    ensures |r| == 8 && forall i :: 0 <= i < 8 ==> r[i] == (lanes[i] * 16777619 + v + i) % TWO32
  {
    seq(8, i requires 0 <= i < 8 => (lanes[i] * 16777619 + v + i) % TWO32)
  }

  /** The lanes after the first `k` bytes. */
  function Lanes(stream: seq<Byte>, k: nat): (r: seq<int>)
    requires k <= |stream|
    ensures |r| == 8
  {
    if k == 0 then LANES else Mix(Lanes(stream, k - 1), stream[k - 1])
  }

  function Digest(lanes: seq<int>): seq<Byte> {
    Concat(n => Field(n), lanes)
  }

  /** aivm_worker_identity: the fields, least significant byte first, then the artifact. */
  function Identity(target: int, capabilities: int, abi: int, version: int, artifact: seq<Byte>): seq<Byte> {
    var stream := Field(target) + Field(capabilities) + Field(abi) + Field(version) + artifact;
    Digest(Lanes(stream, |stream|))
  }

  /** The mixing loop over the four header fields and the artifact, lane by lane in place. */
  method MixAll(stream: seq<Byte>) returns (lanes: array<int>)
    ensures lanes.Length == 8 && lanes[..] == Lanes(stream, |stream|)
  {
    lanes := new int[8](i requires 0 <= i < 8 => LANES[i]);
    for i := 0 to |stream|
      invariant lanes[..] == Lanes(stream, i)
    {
      ghost var before := lanes[..];
      for lane := 0 to 8
        invariant forall k :: 0 <= k < lane ==> lanes[k] == (before[k] * 16777619 + stream[i] + k) % TWO32
        invariant forall k :: lane <= k < 8 ==> lanes[k] == before[k]
      {
        lanes[lane] := (lanes[lane] * 16777619 + stream[i] + lane) % TWO32;
      }
      assert lanes[..] == Mix(before, stream[i]);
    }
  }

  // ----- the encoder

  function EncodeArtifact(a: Artifact): seq<Byte>
    decreases a, 0
  {
    [65, 73, 66, 67] + Field(2) + Field(a.flags) + Field(|a.sections|) + EncodeSections(a.sections) + a.trailing
  }

  function EncodeSections(ss: seq<Section>): seq<Byte>
    decreases ss, 0
  {
    if ss == [] then [] else EncodeSection(ss[0]) + EncodeSections(ss[1..])
  }

  function EncodeSection(s: Section): seq<Byte>
    decreases s, 1
  {
    Field(Kind(s)) + Field(|Payload(s)|) + Payload(s)
  }

  function Kind(s: Section): int {
    match s
    case Instructions(_) => 1
    case Constants(_) => 2
    case Catalog(_) => 3
    case Other(kind, _) => kind
  }

  function Payload(s: Section): seq<Byte>
    decreases s, 0
  {
    match s
    case Instructions(instrs) => Field(|instrs|) + Concat(EncodeInstr, instrs)
    case Constants(consts) => Field(|consts|) + Concat(EncodeConst, consts)
    case Catalog(workers) => Field(|workers|) + EncodeWorkers(workers)
    case Other(_, payload) => payload
  }

  function EncodeWorkers(ws: seq<Worker>): seq<Byte>
    decreases ws, 0
  {
    if ws == [] then [] else EncodeWorker(ws[0]) + EncodeWorkers(ws[1..])
  }

  function EncodeWorker(w: Worker): seq<Byte>
    decreases w, 0
  {
    WorkerBytes(w.target, w.capabilities, EncodeArtifact(w.artifact))
  }

  function WorkerBytes(target: int, capabilities: int, artifact: seq<Byte>): seq<Byte> {
    Field(target) + Field(capabilities) + Field(1) + Field(2) + Field(|artifact|) + Identity(target, capabilities, 1, 2, artifact) + artifact
  }

  // ----- what may be encoded

  function StringTotal(cs: seq<Constant>): nat {
    if cs == [] then 0 else StringTotal(cs[..|cs| - 1]) + (if cs[|cs| - 1].StringConst? then |cs[|cs| - 1].raw| + 1 else 0)
  }

  function BytesTotal(cs: seq<Constant>): nat {
    if cs == [] then 0 else BytesTotal(cs[..|cs| - 1]) + (if cs[|cs| - 1].BytesConst? then |cs[|cs| - 1].raw| else 0)
  }

  function InstrCount(ss: seq<Section>): nat {
    if ss == [] then 0 else if ss[0].Instructions? then |ss[0].instrs| else InstrCount(ss[1..])
  }

  predicate WfArtifact(a: Artifact) {
    Is32(a.flags) && |a.sections| <= 32 && WfSections(a.sections, {})
  }

  /** At most one section of each known kind. */
  predicate WfSections(ss: seq<Section>, seen: set<int>) {
    ss == [] || (WfSection(ss[0]) && !(Kind(ss[0]) in {1, 2, 3} && Kind(ss[0]) in seen) && WfSections(ss[1..], seen + {Kind(ss[0])}))
  }

  predicate WfSection(s: Section) {
    && Is32(|Payload(s)|)
    && match s
       case Instructions(instrs) => Is32(|instrs|) && forall i :: 0 <= i < |instrs| ==> WfInstr(instrs[i])
       case Constants(consts) =>
         && Is32(|consts|) && (forall i :: 0 <= i < |consts| ==> WfConst(consts[i]))
         && StringTotal(consts) <= 65536 && BytesTotal(consts) <= 32768
       case Catalog(workers) => |workers| <= 1024 && WfWorkers(workers)
       case Other(kind, _) => Is32(kind) && kind !in {1, 2, 3}
  }

  predicate WfWorkers(ws: seq<Worker>) {
    ws == [] || (WfWorker(ws[0]) && WfWorkers(ws[1..]))
  }

  /** No reserved capability bit, and an entry point inside the worker's own program. */
  predicate WfWorker(w: Worker) {
    && 0 <= w.capabilities < 65536 && Is32(|EncodeArtifact(w.artifact)|)
    && 0 <= w.target < InstrCount(w.artifact.sections) && Is32(w.target) && WfArtifact(w.artifact)
  }

  // ----- the loader

  /** aivm_program_load_aibc1; bytes after the last section are accepted. */
  function Load(b: seq<Byte>): Parsed<Artifact>
    decreases |b|, 2
  {
    if |b| < 16 || b[..4] != MAGIC || ReadU32(b[4..]) != VERSION || ReadU32(b[12..]) > MAX_SECTIONS then Fail
    else match ParseSections(b[16..], ReadU32(b[12..]), {})
      case Fail => Fail
      case Done(ss, size) => if size > |b| - 16 then Fail else Done(Artifact(ReadU32(b[8..]), ss, b[16 + size..]), |b|)
  }

  function ParseSections(b: seq<Byte>, n: nat, seen: set<int>): Parsed<seq<Section>>
    decreases |b|, 1
  {
    if n == 0 then Done([], 0)
    else match ParseSection(b, seen)
      case Fail => Fail
      case Done(s, end) =>
        if !(0 < end <= |b|) then Fail
        else match ParseSections(b[end..], n - 1, seen + {Kind(s)})
          case Fail => Fail
          case Done(ss, size) => Done([s] + ss, end + size)
  }

  /** One section: its kind and size, its payload within bounds, no known kind twice. */
  function ParseSection(b: seq<Byte>, seen: set<int>): Parsed<Section>
    decreases |b|, 0
  {
    if |b| < 8 || 8 + ReadU32(b[4..]) > |b| then Fail
    else
      var kind, end := ReadU32(b), 8 + ReadU32(b[4..]);
      if kind in {1, 2, 3} && kind in seen then Fail
      else match ParsePayload(kind, b[8..end])
        case Fail => Fail
        case Done(s, _) => Done(s, end)
  }

  function ParsePayload(kind: int, p: seq<Byte>): Parsed<Section>
    decreases |p|, 2
  {
    if kind == 1 then
      if |p| < 4 || |p| != 4 + 12 * ReadU32(p) then Fail
      else (match ParseList(ParseInstr, p[4..], ReadU32(p)) case Fail => Fail case Done(instrs, _) => Done(Instructions(instrs), |p|))
    else if kind == 2 then
      if |p| < 4 then Fail
      else (match ParseList(ParseConst, p[4..], ReadU32(p))
            case Fail => Fail
            case Done(cs, size) =>
              if size != |p| - 4 || StringTotal(cs) > MAX_STRING_BYTES || BytesTotal(cs) > MAX_BYTES_STORAGE then Fail
              else Done(Constants(cs), |p|))
    else if kind == 3 then
      if |p| < 4 || ReadU32(p) > MAX_WORKERS then Fail
      else (match ParseWorkers(p[4..], ReadU32(p))
            case Fail => Fail
            case Done(ws, size) => if size != |p| - 4 then Fail else Done(Catalog(ws), |p|))
    else Done(Other(kind, p), |p|)
  }

  /** The entry loop of aivm_worker_catalog_load. */
  function ParseWorkers(b: seq<Byte>, n: nat): Parsed<seq<Worker>>
    decreases |b|, 1
  {
    if n == 0 then Done([], 0)
    else match ParseWorker(b)
      case Fail => Fail
      case Done(w, end) =>
        if !(0 < end <= |b|) then Fail
        else match ParseWorkers(b[end..], n - 1)
          case Fail => Fail
          case Done(ws, size) => Done([w] + ws, end + size)
  }

  /** One entry: header, identity, and an artifact that loads and contains the entry point. */
  function ParseWorker(b: seq<Byte>): Parsed<Worker>
    decreases |b|, 0
  {
    if |b| < WORKER_HEADER || ReadU32(b[16..]) > |b| - WORKER_HEADER then Fail
    else
      var target, capabilities, abi, version := ReadU32(b), ReadU32(b[4..]), ReadU32(b[8..]), ReadU32(b[12..]);
      var end := WORKER_HEADER + ReadU32(b[16..]);
      var artifact := b[WORKER_HEADER..end];
      if abi != TRANSPORT_ABI || capabilities >= 65536 || Identity(target, capabilities, abi, version, artifact) != b[20..WORKER_HEADER] then Fail
      else match Load(artifact)
        case Fail => Fail
        case Done(a, _) =>
          if version != VERSION || target >= InstrCount(a.sections) then Fail
          else Done(Worker(target, capabilities, a), end)
  }

  // ----- by byte value

  /** A 32-bit field at offset `i`, the least significant byte first. */
  function At32(b: seq<Byte>, i: nat): int
    requires i + 4 <= |b|
  {
    b[i] as int + 256 * b[i + 1] as int + 65536 * b[i + 2] as int + 16777216 * b[i + 3] as int
  }

  /** What loads begins with "AIBC", version 2, and counts at most 32 sections. */
  lemma HeaderByValue(b: seq<Byte>)
    requires Load(b).Done?
    ensures |b| >= 16 && b[..8] == [65, 73, 66, 67, 2, 0, 0, 0]
    ensures var a := Load(b).value; At32(b, 8) == a.flags && At32(b, 12) == |a.sections| <= 32
  {
    LoadSound(b);
    ReadU32Writes(b[4..]);
    var ss := ParseSections(b[16..], ReadU32(b[12..]), {});
    SectionsSound(b[16..], ReadU32(b[12..]), {});
    assert b[..8] == b[..4] + b[4..][..4];
  }

  /** A worker's entry point is an instruction of its program's instruction section. */
  lemma {:induction false} EntryInside(ss: seq<Section>, target: nat) returns (k: nat)
    requires target < InstrCount(ss)
    ensures k < |ss| && ss[k].Instructions? && target < |ss[k].instrs| && forall j :: 0 <= j < k ==> !ss[j].Instructions?
  {
    k := 0;
    if !ss[0].Instructions? {
      k := EntryInside(ss[1..], target);
      k := k + 1;
    }
  }

  /** The seed of a lane. */
  function Seed(lane: nat): int {
    match lane
    case 0 => 2166136261
    case 1 => 2246822519
    case 2 => 3266489917
    case 3 => 668265263
    case 4 => 374761393
    case 5 => 1274126177
    case 6 => 42595009
    case _ => 2048419325
  }

  /** A lane by itself, once the bytes of `stream` went through it from its first to its last. */
  function LaneFrom(state: int, lane: nat, stream: seq<Byte>): int
    decreases |stream|
  {
    if stream == [] then state else LaneFrom((state * 16777619 + stream[0] + lane) % 4294967296, lane, stream[1..])
  }

  lemma {:induction false} LaneLast(state: int, lane: nat, stream: seq<Byte>, v: Byte)
    ensures LaneFrom(state, lane, stream + [v]) == (LaneFrom(state, lane, stream) * 16777619 + v + lane) % 4294967296
    decreases |stream|
  {
    if stream == [] {
      assert stream + [v] == [v] && [v][1..] == [];
    } else {
      LaneLast((state * 16777619 + stream[0] + lane) % 4294967296, lane, stream[1..], v);
      assert (stream + [v])[1..] == stream[1..] + [v];
    }
  }

  lemma {:induction false} LanesSeparate(stream: seq<Byte>, k: nat, lane: nat)
    requires k <= |stream| && lane < 8
    ensures Lanes(stream, k)[lane] == LaneFrom(Seed(lane), lane, stream[..k])
    decreases k
  {
    if k > 0 {
      LanesSeparate(stream, k - 1, lane);
      LaneLast(Seed(lane), lane, stream[..k - 1], stream[k - 1]);
      assert stream[..k - 1] + [stream[k - 1]] == stream[..k];
    }
  }

  lemma {:induction false} DigestAt(lanes: seq<int>, lane: nat)
    requires lane < |lanes|
    ensures |Digest(lanes)| == 4 * |lanes| && Digest(lanes)[4 * lane..4 * lane + 4] == Field(lanes[lane])
    decreases |lanes|
  {
    DigestLength(lanes);
    var f := (n: int) => Field(n);
    var head, rest := Field(lanes[0]), Digest(lanes[1..]);
    assert Digest(lanes) == head + rest;
    if lane > 0 {
      DigestAt(lanes[1..], lane - 1);
      assert (head + rest)[4 * lane..4 * lane + 4] == rest[4 * (lane - 1)..4 * (lane - 1) + 4];
    } else {
      assert (head + rest)[0..4] == head;
    }
  }

  /** The identity of a worker: eight little-endian lanes, each seeded by its own constant and mixed with the header
      fields, little-endian in their order, and the artifact. */
  lemma IdentityByValue(target: int, capabilities: int, abi: int, version: int, artifact: seq<Byte>, lane: nat)
    requires Is32(target) && Is32(capabilities) && Is32(abi) && Is32(version) && lane < 8
    ensures var id := Identity(target, capabilities, abi, version, artifact);
            |id| == 32 && At32(id, 4 * lane) == LaneFrom(Seed(lane), lane, U32(target) + U32(capabilities) + U32(abi) + U32(version) + artifact) % 4294967296
  {
    FieldIsU32(target);
    FieldIsU32(capabilities);
    FieldIsU32(abi);
    FieldIsU32(version);
    var stream := Field(target) + Field(capabilities) + Field(abi) + Field(version) + artifact;
    var lanes := Lanes(stream, |stream|);
    LanesSeparate(stream, |stream|, lane);
    assert stream[..|stream|] == stream;
    DigestAt(lanes, lane);
    var id := Digest(lanes);
    FieldReads(lanes[lane] % TWO32, []);
    assert id[4 * lane..4 * lane + 4] + [] == id[4 * lane..4 * lane + 4];
    FieldMod(lanes[lane]);
  }

  lemma FieldMod(n: int)
    ensures Field(n % TWO32) == Field(n)
  {}

  // ----- what loads was encoded

  lemma {:induction false} LoadSound(b: seq<Byte>)
    requires Load(b).Done?
    ensures WfArtifact(Load(b).value) && EncodeArtifact(Load(b).value) == b && Load(b).size == |b|
    decreases |b|, 2
  {
    var n := ReadU32(b[12..]);
    SectionsSound(b[16..], n, {});
    var r := ParseSections(b[16..], n, {});
    assert Load(b) == Done(Artifact(ReadU32(b[8..]), r.value, b[16 + r.size..]), |b|);
    HeaderSplit(b, r.size);
  }

  lemma HeaderSplit(b: seq<Byte>, size: nat)
    requires |b| >= 16 + size
    ensures b == b[..4] + Field(ReadU32(b[4..])) + Field(ReadU32(b[8..])) + Field(ReadU32(b[12..])) + b[16..][..size] + b[16 + size..]
  {
    FieldWrites(b[4..]);
    FieldWrites(b[8..]);
    FieldWrites(b[12..]);
    HeaderBytes(b, size);
  }

  lemma HeaderBytes(b: seq<Byte>, size: nat)
    requires |b| >= 16 + size
    ensures b == b[..4] + b[4..][..4] + b[8..][..4] + b[12..][..4] + b[16..][..size] + b[16 + size..]
  {}

  lemma {:induction false} SectionsSound(b: seq<Byte>, n: nat, seen: set<int>)
    requires ParseSections(b, n, seen).Done?
    ensures var r := ParseSections(b, n, seen);
            |r.value| == n && r.size <= |b| && b[..r.size] == EncodeSections(r.value) && WfSections(r.value, seen)
    decreases |b|, 1
  {
    if n > 0 {
      SectionsStep(b, n, seen);
      var s, end := ParseSection(b, seen).value, ParseSection(b, seen).size;
      var rest := ParseSections(b[end..], n - 1, seen + {Kind(s)});
      SectionsSound(b[end..], n - 1, seen + {Kind(s)});
      SectionSound(b, seen);
      SectionsJoin(s, rest.value, seen);
      PrefixSplit(b, end, rest.size);
    }
  }

  lemma PrefixSplit(b: seq<Byte>, i: nat, j: nat)
    requires i + j <= |b|
    ensures b[..i + j] == b[..i] + b[i..][..j]
  {}

  lemma SectionsStep(b: seq<Byte>, n: nat, seen: set<int>)
    requires n > 0 && ParseSections(b, n, seen).Done?
    ensures var one := ParseSection(b, seen);
            && one.Done? && 0 < one.size <= |b|
            && var rest := ParseSections(b[one.size..], n - 1, seen + {Kind(one.value)});
            rest.Done? && ParseSections(b, n, seen) == Done([one.value] + rest.value, one.size + rest.size)
  {}

  lemma {:induction false} SectionSound(b: seq<Byte>, seen: set<int>)
    requires ParseSection(b, seen).Done?
    ensures var r := ParseSection(b, seen);
            0 < r.size <= |b| && b[..r.size] == EncodeSection(r.value) && WfSection(r.value) && !(Kind(r.value) in {1, 2, 3} && Kind(r.value) in seen)
    decreases |b|, 0
  {
    var kind, end := ReadU32(b), 8 + ReadU32(b[4..]);
    PayloadSound(kind, b[8..end]);
    SectionSplit(b, end, ParsePayload(kind, b[8..end]).value);
  }

  lemma SectionSplit(b: seq<Byte>, end: nat, s: Section)
    requires |b| >= 8 && end == 8 + ReadU32(b[4..]) <= |b| && Kind(s) == ReadU32(b) && Payload(s) == b[8..end]
    ensures b[..end] == EncodeSection(s)
  {
    FieldWrites(b);
    FieldWrites(b[4..]);
    assert b[..end] == b[..4] + b[4..][..4] + b[8..end];
  }

  lemma SectionsJoin(s: Section, ss: seq<Section>, seen: set<int>)
    ensures EncodeSections([s] + ss) == EncodeSection(s) + EncodeSections(ss)
    ensures WfSection(s) && !(Kind(s) in {1, 2, 3} && Kind(s) in seen) && WfSections(ss, seen + {Kind(s)}) ==> WfSections([s] + ss, seen)
  {
    var all := [s] + ss;
    assert all[0] == s && all[1..] == ss;
  }

  lemma {:induction false} PayloadSound(kind: int, p: seq<Byte>)
    requires Is32(kind) && Is32(|p|) && ParsePayload(kind, p).Done?
    ensures var s := ParsePayload(kind, p).value; WfSection(s) && Kind(s) == kind && Payload(s) == p
    decreases |p|, 2
  {
    if kind == 1 {
      InstrCodec();
      FieldWrites(p);
      ListSound(ParseInstr, EncodeInstr, WfInstr, p[4..], ReadU32(p));
      var r := ParseList(ParseInstr, p[4..], ReadU32(p));
      InstrsLength(r.value);
      assert p[4..][..r.size] == p[4..];
    } else if kind == 2 {
      ConstCodec();
      FieldWrites(p);
      ListSound(ParseConst, EncodeConst, WfConst, p[4..], ReadU32(p));
      var r := ParseList(ParseConst, p[4..], ReadU32(p));
      assert p[4..][..r.size] == p[4..];
    } else if kind == 3 {
      FieldWrites(p);
      WorkersSound(p[4..], ReadU32(p));
      var r := ParseWorkers(p[4..], ReadU32(p));
      assert p[4..][..r.size] == p[4..];
    }
  }

  lemma {:induction false} InstrsLength(xs: seq<Instr>)
    ensures |Concat(EncodeInstr, xs)| == 12 * |xs|
  {
    if xs != [] { InstrsLength(xs[1..]); }
  }

  lemma {:induction false} WorkersSound(b: seq<Byte>, n: nat)
    requires ParseWorkers(b, n).Done?
    ensures var r := ParseWorkers(b, n);
            |r.value| == n && r.size <= |b| && b[..r.size] == EncodeWorkers(r.value) && WfWorkers(r.value)
    decreases |b|, 1
  {
    if n > 0 {
      WorkersStep(b, n);
      var w, end := ParseWorker(b).value, ParseWorker(b).size;
      var rest := ParseWorkers(b[end..], n - 1);
      WorkersSound(b[end..], n - 1);
      WorkerSound(b);
      WorkersJoin(w, rest.value);
      PrefixSplit(b, end, rest.size);
    }
  }

  lemma WorkersStep(b: seq<Byte>, n: nat)
    requires n > 0 && ParseWorkers(b, n).Done?
    ensures var one := ParseWorker(b);
            && one.Done? && 0 < one.size <= |b|
            && var rest := ParseWorkers(b[one.size..], n - 1);
            rest.Done? && ParseWorkers(b, n) == Done([one.value] + rest.value, one.size + rest.size)
  {}

  lemma {:induction false} WorkerSound(b: seq<Byte>)
    requires ParseWorker(b).Done?
    ensures var r := ParseWorker(b); 0 < r.size <= |b| && b[..r.size] == EncodeWorker(r.value) && WfWorker(r.value)
    decreases |b|, 0
  {
    var end := WORKER_HEADER + ReadU32(b[16..]);
    LoadSound(b[WORKER_HEADER..end]);
    WorkerSplit(b, end);
  }

  lemma WorkersJoin(w: Worker, ws: seq<Worker>)
    ensures EncodeWorkers([w] + ws) == EncodeWorker(w) + EncodeWorkers(ws)
    ensures WfWorker(w) && WfWorkers(ws) ==> WfWorkers([w] + ws)
  {
    var all := [w] + ws;
    assert all[0] == w && all[1..] == ws;
  }

  /** The header fields and the artifact of the first worker, put together again. */
  lemma WorkerSplit(b: seq<Byte>, end: nat)
    requires |b| >= WORKER_HEADER && end == WORKER_HEADER + ReadU32(b[16..]) <= |b|
    ensures b[..end] == Field(ReadU32(b)) + Field(ReadU32(b[4..])) + Field(ReadU32(b[8..])) + Field(ReadU32(b[12..])) + Field(ReadU32(b[16..]))
                        + b[20..WORKER_HEADER] + b[WORKER_HEADER..end]
  {
    FieldWrites(b);
    FieldWrites(b[4..]);
    FieldWrites(b[8..]);
    FieldWrites(b[12..]);
    FieldWrites(b[16..]);
    assert b[..end] == b[..4] + b[4..][..4] + b[8..][..4] + b[12..][..4] + b[16..][..4] + b[20..WORKER_HEADER] + b[WORKER_HEADER..end];
  }

  // ----- what was encoded loads

  lemma {:induction false} LoadComplete(a: Artifact)
    requires WfArtifact(a)
    ensures Load(EncodeArtifact(a)) == Done(a, |EncodeArtifact(a)|)
    decreases a, 0
  {
    var ss := EncodeSections(a.sections);
    SectionsComplete(a.sections, {}, a.trailing);
    HeaderReads(a.flags, |a.sections|, ss, a.trailing);
  }

  lemma HeaderReads(flags: int, n: int, body: seq<Byte>, trailing: seq<Byte>)
    requires Is32(flags) && Is32(n)
    ensures var b := MAGIC + Field(VERSION) + Field(flags) + Field(n) + body + trailing;
            && |b| == 16 + |body| + |trailing| && b[..4] == MAGIC && ReadU32(b[4..]) == VERSION && ReadU32(b[8..]) == flags && ReadU32(b[12..]) == n
            && b[16..] == body + trailing && b[16 + |body|..] == trailing
  {
    FourHeads(MAGIC, Field(VERSION), Field(flags), Field(n), body, trailing);
    FieldReads(VERSION, Field(flags) + (Field(n) + (body + trailing)));
    FieldReads(flags, Field(n) + (body + trailing));
    FieldReads(n, body + trailing);
  }

  lemma FourHeads(m: seq<Byte>, v: seq<Byte>, f: seq<Byte>, n: seq<Byte>, body: seq<Byte>, trailing: seq<Byte>)
    requires |m| == |v| == |f| == |n| == 4
    ensures var b := m + v + f + n + body + trailing;
            && |b| == 16 + |body| + |trailing| && b[..4] == m && b[4..] == v + (f + (n + (body + trailing))) && b[8..] == f + (n + (body + trailing))
            && b[12..] == n + (body + trailing) && b[16..] == body + trailing && b[16 + |body|..] == trailing
  {}

  lemma {:induction false} SectionsComplete(ss: seq<Section>, seen: set<int>, rest: seq<Byte>)
    requires WfSections(ss, seen)
    ensures ParseSections(EncodeSections(ss) + rest, |ss|, seen) == Done(ss, |EncodeSections(ss)|)
    decreases ss, 0
  {
    if ss != [] {
      var e, more := EncodeSection(ss[0]), EncodeSections(ss[1..]);
      SectionComplete(ss[0], seen, more + rest);
      SectionsComplete(ss[1..], seen + {Kind(ss[0])}, rest);
      SectionsNext(ss[0], e, more, rest, |ss|, seen, ss[1..]);
      SectionsHead(ss);
    }
  }

  lemma SectionsHead(ss: seq<Section>)
    requires ss != []
    ensures EncodeSections(ss) == EncodeSection(ss[0]) + EncodeSections(ss[1..]) && [ss[0]] + ss[1..] == ss && EncodeSection(ss[0]) != []
  {}

  lemma SectionsNext(s: Section, e: seq<Byte>, more: seq<Byte>, rest: seq<Byte>, n: nat, seen: set<int>, ss: seq<Section>)
    requires n > 0 && e != [] && ParseSection(e + (more + rest), seen) == Done(s, |e|)
    requires ParseSections(more + rest, n - 1, seen + {Kind(s)}) == Done(ss, |more|)
    ensures ParseSections((e + more) + rest, n, seen) == Done([s] + ss, |e + more|)
  {
    JoinBytes(e, more, rest);
  }

  lemma {:induction false} SectionComplete(s: Section, seen: set<int>, tail: seq<Byte>)
    requires WfSection(s) && !(Kind(s) in {1, 2, 3} && Kind(s) in seen)
    ensures ParseSection(EncodeSection(s) + tail, seen) == Done(s, |EncodeSection(s)|)
    decreases s, 1
  {
    var p, b := Payload(s), EncodeSection(s) + tail;
    assert b == Field(Kind(s)) + (Field(|p|) + (p + tail));
    KindIs32(s);
    FieldReads(Kind(s), Field(|p|) + (p + tail));
    assert b[4..] == Field(|p|) + (p + tail);
    FieldReads(|p|, p + tail);
    assert b[8..] == p + tail;
    assert b[8..8 + |p|] == p;
    PayloadComplete(s);
  }

  lemma KindIs32(s: Section)
    requires WfSection(s)
    ensures Is32(Kind(s))
  {}

  lemma {:induction false} PayloadComplete(s: Section)
    requires WfSection(s)
    ensures ParsePayload(Kind(s), Payload(s)) == Done(s, |Payload(s)|)
    decreases s, 0
  {
    var p := Payload(s);
    match s
    case Instructions(instrs) =>
      var body := Concat(EncodeInstr, instrs);
      FieldReads(|instrs|, body);
      InstrCodec();
      InstrsLength(instrs);
      ListComplete(ParseInstr, EncodeInstr, WfInstr, instrs, []);
      assert body + [] == body;
    case Constants(consts) =>
      var body := Concat(EncodeConst, consts);
      FieldReads(|consts|, body);
      ConstCodec();
      ListComplete(ParseConst, EncodeConst, WfConst, consts, []);
      assert body + [] == body;
    case Catalog(workers) =>
      var body := EncodeWorkers(workers);
      FieldReads(|workers|, body);
      WorkersComplete(workers, []);
      assert body + [] == body;
    case Other(_, _) =>
  }

  lemma {:induction false} WorkersComplete(ws: seq<Worker>, rest: seq<Byte>)
    requires WfWorkers(ws)
    ensures ParseWorkers(EncodeWorkers(ws) + rest, |ws|) == Done(ws, |EncodeWorkers(ws)|)
    decreases ws, 0
  {
    if ws != [] {
      var e, more := EncodeWorker(ws[0]), EncodeWorkers(ws[1..]);
      WorkersComplete(ws[1..], rest);
      WorkerComplete(ws[0], more + rest);
      WorkersNext(ws[0], e, more, rest, |ws|, ws[1..]);
      WorkersHead(ws);
    }
  }

  lemma WorkersHead(ws: seq<Worker>)
    requires ws != []
    ensures EncodeWorkers(ws) == EncodeWorker(ws[0]) + EncodeWorkers(ws[1..])
    ensures [ws[0]] + ws[1..] == ws && EncodeWorker(ws[0]) != []
  {
    WorkerNotEmpty(ws[0]);
  }

  lemma WorkerNotEmpty(w: Worker)
    ensures EncodeWorker(w) != []
  {}

  lemma JoinBytes(e: seq<Byte>, more: seq<Byte>, rest: seq<Byte>)
    ensures (e + more) + rest == e + (more + rest) && (e + (more + rest))[|e|..] == more + rest
  {}

  lemma WorkersNext(w: Worker, e: seq<Byte>, more: seq<Byte>, rest: seq<Byte>, n: nat, ws: seq<Worker>)
    requires n > 0 && e != [] && ParseWorker(e + (more + rest)) == Done(w, |e|) && ParseWorkers(more + rest, n - 1) == Done(ws, |more|)
    ensures ParseWorkers((e + more) + rest, n) == Done([w] + ws, |e + more|)
  {
    JoinBytes(e, more, rest);
  }

  lemma {:induction false} WorkerComplete(w: Worker, tail: seq<Byte>)
    requires WfWorker(w)
    ensures ParseWorker(EncodeWorker(w) + tail) == Done(w, |EncodeWorker(w)|) && |EncodeWorker(w)| > 0
    decreases w, 0
  {
    WorkerReads(w.target, w.capabilities, EncodeArtifact(w.artifact), tail);
    LoadComplete(w.artifact);
  }

  lemma DigestLength(lanes: seq<int>)
    ensures |Digest(lanes)| == 4 * |lanes|
  {
    var f := (n: int) => Field(n);
    ConcatLength(f, lanes);
  }

  lemma {:induction false} ConcatLength(f: int -> seq<Byte>, xs: seq<int>)
    requires forall n {:trigger f(n)} :: |f(n)| == 4
    ensures |Concat(f, xs)| == 4 * |xs|
  {
    if xs != [] { ConcatLength(f, xs[1..]); }
  }

  lemma WorkerReads(target: int, capabilities: int, artifact: seq<Byte>, tail: seq<Byte>)
    requires Is32(target) && Is32(capabilities) && Is32(|artifact|)
    ensures var b := WorkerBytes(target, capabilities, artifact) + tail;
            && |b| - |tail| == WORKER_HEADER + |artifact|
            && ReadU32(b) == target && ReadU32(b[4..]) == capabilities && ReadU32(b[8..]) == TRANSPORT_ABI && ReadU32(b[12..]) == VERSION
            && ReadU32(b[16..]) == |artifact|
            && b[20..WORKER_HEADER] == Identity(target, capabilities, TRANSPORT_ABI, VERSION, artifact)
            && b[WORKER_HEADER..WORKER_HEADER + |artifact|] == artifact && b[WORKER_HEADER + |artifact|..] == tail
  {
    var id := Identity(target, capabilities, TRANSPORT_ABI, VERSION, artifact);
    IdentityLength(target, capabilities, TRANSPORT_ABI, VERSION, artifact);
    var t5 := id + artifact + tail;
    FiveFields(target, capabilities, TRANSPORT_ABI, VERSION, |artifact|, t5);
    var b := WorkerBytes(target, capabilities, artifact) + tail;
    assert b == Field(target) + Field(capabilities) + Field(TRANSPORT_ABI) + Field(VERSION) + Field(|artifact|) + t5;
    assert t5[..32] == id && t5[32..32 + |artifact|] == artifact && t5[32 + |artifact|..] == tail;
    assert b[20..52] == b[20..][..32] && b[52..52 + |artifact|] == b[20..][32..32 + |artifact|] && b[52 + |artifact|..] == b[20..][32 + |artifact|..];
  }

  lemma IdentityLength(target: int, capabilities: int, abi: int, version: int, artifact: seq<Byte>)
    ensures |Identity(target, capabilities, abi, version, artifact)| == 32
  {
    var stream := Field(target) + Field(capabilities) + Field(abi) + Field(version) + artifact;
    DigestLength(Lanes(stream, |stream|));
  }

  lemma FiveFields(n0: int, n1: int, n2: int, n3: int, n4: int, rest: seq<Byte>)
    requires Is32(n0) && Is32(n1) && Is32(n2) && Is32(n3) && Is32(n4)
    ensures var b := Field(n0) + Field(n1) + Field(n2) + Field(n3) + Field(n4) + rest;
            && ReadU32(b) == n0 && ReadU32(b[4..]) == n1 && ReadU32(b[8..]) == n2 && ReadU32(b[12..]) == n3 && ReadU32(b[16..]) == n4
            && b[20..] == rest
  {
    var t4 := Field(n4) + rest;
    var t3 := Field(n3) + t4;
    var t2 := Field(n2) + t3;
    var t1 := Field(n1) + t2;
    var b := Field(n0) + Field(n1) + Field(n2) + Field(n3) + Field(n4) + rest;
    assert b == Field(n0) + t1;
    FieldReads(n0, t1);
    FieldReads(n1, t2);
    FieldReads(n2, t3);
    FieldReads(n3, t4);
    FieldReads(n4, rest);
    assert b[4..] == t1 && b[8..] == t1[4..] == t2 && b[12..] == t2[4..] == t3 && b[16..] == t3[4..] == t4 && b[20..] == t4[4..] == rest;
  }

  // ----- the loader inverts the encoder

  /** The loader accepts exactly the encodings of well-formed artifacts: sections adjacent and in bounds, opcodes known,
      constants and catalogs filling their sections, every worker an artifact of the same kind. */
  lemma LoadsExactlyEncodings(b: seq<Byte>)
    ensures Load(b).Done? <==> exists a: Artifact :: WfArtifact(a) && EncodeArtifact(a) == b
    ensures Load(b).Done? ==> WfArtifact(Load(b).value) && EncodeArtifact(Load(b).value) == b
  {
    if Load(b).Done? {
      LoadSound(b);
    } else if a: Artifact :| WfArtifact(a) && EncodeArtifact(a) == b {
      LoadComplete(a);
    }
  }

  /** No two artifacts share an encoding. */
  lemma EncodingsDiffer(a: Artifact, a': Artifact)
    requires WfArtifact(a) && WfArtifact(a') && EncodeArtifact(a) == EncodeArtifact(a')
    ensures a == a'
  {
    LoadComplete(a);
    LoadComplete(a');
  }

  /** A worker's artifact is strictly shorter than the artifact whose catalog holds it. */
  lemma {:induction false} NestedShorter(a: Artifact, i: nat, j: nat)
    requires i < |a.sections| && a.sections[i].Catalog? && j < |a.sections[i].workers|
    ensures |EncodeArtifact(a.sections[i].workers[j].artifact)| + 80 <= |EncodeArtifact(a)|
  {
    SectionInside(a.sections, i);
    WorkerInside(a.sections[i].workers, j);
  }

  lemma {:induction false} SectionInside(ss: seq<Section>, i: nat)
    requires i < |ss|
    ensures 8 + |Payload(ss[i])| <= |EncodeSections(ss)|
  {
    if i > 0 { SectionInside(ss[1..], i - 1); }
  }

  lemma {:induction false} WorkerInside(ws: seq<Worker>, j: nat)
    requires j < |ws|
    ensures WORKER_HEADER + |EncodeArtifact(ws[j].artifact)| <= |EncodeWorkers(ws)|
  {
    if j > 0 {
      WorkerInside(ws[1..], j - 1);
    } else {
      IdentityLength(ws[0].target, ws[0].capabilities, TRANSPORT_ABI, VERSION, EncodeArtifact(ws[0].artifact));
    }
  }

  // ----- the section loop

  lemma ResumeNext(u: seq<Byte>, m: nat, seen: set<int>, done: seq<Section>, size: nat)
    requires m > 0
    ensures var one := ParseSection(u, seen);
            if one.Fail? then ParseSections(u, m, seen) == Fail
            else
              && 0 < one.size <= |u|
              && Resumed(done, size, ParseSections(u, m, seen))
                 == Resumed(done + [one.value], size + one.size, ParseSections(u[one.size..], m - 1, seen + {Kind(one.value)}))
  {
    var one := ParseSection(u, seen);
    if one.Done? {
      SectionSize(u, seen);
      var tail := ParseSections(u[one.size..], m - 1, seen + {Kind(one.value)});
      if tail.Done? { assert done + ([one.value] + tail.value) == (done + [one.value]) + tail.value; }
    }
  }

  lemma SectionSize(u: seq<Byte>, seen: set<int>)
    requires ParseSection(u, seen).Done?
    ensures 0 < ParseSection(u, seen).size <= |u|
  {}

  /** The loader's loop over sections: what is left, how far it has come, and which known kinds it has met. */
  method LoadSections(b: seq<Byte>, n: nat) returns (ok: bool, sections: seq<Section>, cursor: nat)
    ensures ok <==> ParseSections(b, n, {}).Done?
    ensures ok ==> ParseSections(b, n, {}) == Done(sections, cursor)
  {
    sections, cursor := [], 0;
    var seen: set<int>, left := {}, b;
    ResumeStart(ParseSections(b, n, {}));
    for i := 0 to n
      invariant ParseSections(b, n, {}) == Resumed(sections, cursor, ParseSections(left, n - i, seen))
    {
      ResumeNext(left, n - i, seen, sections, cursor);
      var one := ParseSection(left, seen);
      if one.Fail? {
        return false, sections, cursor;
      }
      sections, seen, cursor, left := sections + [one.value], seen + {Kind(one.value)}, cursor + one.size, left[one.size..];
    }
    ok := true;
    assert sections + [] == sections;
  }

  // ----- constant storage

  /** A loaded constant: strings and bytes point into the program's own storage. */
  datatype Stored = Plain(c: Constant) | StringAt(offset: nat) | BytesAt(offset: nat, length: nat)

  ghost predicate StoredAs(strings: seq<Byte>, bytes: seq<Byte>, c: Constant, v: Stored) {
    match c
    case StringConst(raw) => v.StringAt? && v.offset + |raw| < |strings| && strings[v.offset..v.offset + |raw|] == raw && strings[v.offset + |raw|] == 0
    case BytesConst(raw) => v.BytesAt? && v.length == |raw| && v.offset + |raw| <= |bytes| && bytes[v.offset..v.offset + |raw|] == raw
    case _ => v == Plain(c)
  }

  ghost predicate AllStored(strings: seq<Byte>, bytes: seq<Byte>, cs: seq<Constant>, vs: seq<Stored>) {
    |vs| == |cs| && forall i :: 0 <= i < |cs| ==> StoredAs(strings, bytes, cs[i], vs[i])
  }

  lemma StoredStays(strings: seq<Byte>, bytes: seq<Byte>, strings': seq<Byte>, bytes': seq<Byte>, cs: seq<Constant>, vs: seq<Stored>)
    requires AllStored(strings, bytes, cs, vs) && strings <= strings' && bytes <= bytes'
    ensures AllStored(strings', bytes', cs, vs)
  {
    forall i | 0 <= i < |cs| ensures StoredAs(strings', bytes', cs[i], vs[i]) {
      assert StoredAs(strings, bytes, cs[i], vs[i]);
      match cs[i]
      case StringConst(raw) => assert strings'[vs[i].offset..vs[i].offset + |raw|] == strings[vs[i].offset..vs[i].offset + |raw|];
      case BytesConst(raw) => assert bytes'[vs[i].offset..vs[i].offset + |raw|] == bytes[vs[i].offset..vs[i].offset + |raw|];
      case _ =>
    }
  }

  /** A string without a NUL reads back as it was; one with a NUL reads only up to it. */
  lemma StringReads(strings: seq<Byte>, bytes: seq<Byte>, raw: seq<Byte>, v: Stored)
    requires StoredAs(strings, bytes, StringConst(raw), v)
    ensures NulFree(raw) <==> TextAt(strings, v.offset) == raw
  {
    if NulFree(raw) { TextAtUnique(strings, v.offset, raw); }
  }

  lemma {:induction false} TotalsGrow(cs: seq<Constant>, more: seq<Constant>)
    ensures StringTotal(cs) <= StringTotal(cs + more) && BytesTotal(cs) <= BytesTotal(cs + more)
    decreases |more|
  {
    if more == [] {
      assert cs + more == cs;
    } else {
      TotalsGrow(cs, more[..|more| - 1]);
      assert (cs + more)[..|cs + more| - 1] == cs + more[..|more| - 1];
    }
  }

  /** The constants of a program, as the section says and its limits allow. */
  ghost predicate ConstantsOf(p: seq<Byte> -> Parsed<Constant>, b: seq<Byte>, n: nat, cs: seq<Constant>) {
    ParseList(p, b, n) == Done(cs, |b|) && StringTotal(cs) <= MAX_STRING_BYTES && BytesTotal(cs) <= MAX_BYTES_STORAGE
  }

  ghost predicate Bounded(p: seq<Byte> -> Parsed<Constant>) {
    forall u {:trigger p(u)} :: p(u).Done? ==> p(u).size <= |u|
  }

  /** The constant loop of the loader; `p` reads one constant. */
  method LoadConstantList(p: seq<Byte> -> Parsed<Constant>, b: seq<Byte>, n: nat)
    returns (ok: bool, vs: seq<Stored>, strings: seq<Byte>, bytes: seq<Byte>, ghost cs: seq<Constant>)
    requires Bounded(p)
    ensures ok ==> ConstantsOf(p, b, n, cs) && Kept(strings, bytes, cs, vs)
    ensures !ok ==> forall other :: !ConstantsOf(p, b, n, other)
  {
    vs, strings, bytes, cs := [], [], [], [];
    var left := b;
    ghost var cursor: nat := 0;
    ResumeStart(ParseList(p, b, n));
    for i := 0 to n
      invariant Remains(p, b, n, cs, cursor, left, n - i)
      invariant Kept(strings, bytes, cs, vs)
    {
      var one := p(left);
      RemainsNext(p, b, n, cs, cursor, left, n - i);
      if one.Fail? {
        return false, vs, strings, bytes, cs;
      }
      ghost var before := cs;
      ok, vs, strings, bytes, cs := AddConstant(strings, bytes, one.value, cs, vs);
      left := left[one.size..];
      cursor := cursor + one.size;
      if !ok {
        OverLimit(p, b, n, before + [one.value], cursor, ParseList(p, left, n - i - 1));
        return;
      }
    }
    ok := left == [];
    RemainsNone(p, b, n, cs, cursor, left);
  }

  /** After `cs` constants the list still to be read is `k` constants from `left`. */
  ghost predicate Remains(p: seq<Byte> -> Parsed<Constant>, b: seq<Byte>, n: nat, cs: seq<Constant>, cursor: nat, left: seq<Byte>, k: nat) {
    cursor + |left| == |b| && ParseList(p, b, n) == Resumed(cs, cursor, ParseList(p, left, k))
  }

  lemma RemainsNext(p: seq<Byte> -> Parsed<Constant>, b: seq<Byte>, n: nat, cs: seq<Constant>, cursor: nat, left: seq<Byte>, k: nat)
    requires Bounded(p) && Remains(p, b, n, cs, cursor, left, k) && k > 0
    ensures var one := p(left);
            if one.Fail? then forall other :: !ConstantsOf(p, b, n, other)
            else one.size <= |left| && Remains(p, b, n, cs + [one.value], cursor + one.size, left[one.size..], k - 1)
  {
    ResumeList(p, left, k, cs, cursor);
  }

  lemma RemainsNone(p: seq<Byte> -> Parsed<Constant>, b: seq<Byte>, n: nat, cs: seq<Constant>, cursor: nat, left: seq<Byte>)
    requires Remains(p, b, n, cs, cursor, left, 0)
    ensures if left == [] then ParseList(p, b, n) == Done(cs, |b|) else forall other :: !ConstantsOf(p, b, n, other)
  {
    assert cs + [] == cs;
  }

  /** The constants section after its count: accepted exactly when every constant parses, they fill the section and
      their storage holds them, and then each is stored where its value points. */
  method LoadConstants(b: seq<Byte>, n: nat) returns (ok: bool, vs: seq<Stored>, strings: seq<Byte>, bytes: seq<Byte>, ghost cs: seq<Constant>)
    ensures ok ==> ConstantsOf(ParseConst, b, n, cs) && Kept(strings, bytes, cs, vs)
    ensures !ok ==> forall other :: !ConstantsOf(ParseConst, b, n, other)
  {
    ConstCodec();
    ok, vs, strings, bytes, cs := LoadConstantList(ParseConst, b, n);
  }

  ghost predicate Kept(strings: seq<Byte>, bytes: seq<Byte>, cs: seq<Constant>, vs: seq<Stored>) {
    && AllStored(strings, bytes, cs, vs) && |strings| == StringTotal(cs) <= MAX_STRING_BYTES && |bytes| == BytesTotal(cs) <= MAX_BYTES_STORAGE
  }

  /** One more constant, unless its storage is full. */
  method AddConstant(strings: seq<Byte>, bytes: seq<Byte>, c: Constant, ghost cs: seq<Constant>, vs: seq<Stored>)
    returns (ok: bool, vs': seq<Stored>, strings': seq<Byte>, bytes': seq<Byte>, ghost cs': seq<Constant>)
    requires Kept(strings, bytes, cs, vs)
    ensures ok <==> StringTotal(cs + [c]) <= MAX_STRING_BYTES && BytesTotal(cs + [c]) <= MAX_BYTES_STORAGE
    ensures ok ==> cs' == cs + [c] && Kept(strings', bytes', cs', vs')
  {
    vs', strings', bytes', cs' := vs, strings, bytes, cs;
    OneMore(cs, c);
    if (c.StringConst? && |strings| + |c.raw| + 1 > MAX_STRING_BYTES) || (c.BytesConst? && |bytes| + |c.raw| > MAX_BYTES_STORAGE) {
      return false, vs', strings', bytes', cs';
    }
    var v;
    v, strings', bytes' := StoreConstant(strings, bytes, c, cs, vs);
    ok, vs', cs' := true, vs + [v], cs + [c];
  }

  /** write_string_constant and write_bytes_constant: the bytes go to the end of the storage, a string with its NUL. */
  method StoreConstant(strings: seq<Byte>, bytes: seq<Byte>, c: Constant, ghost cs: seq<Constant>, ghost vs: seq<Stored>)
    returns (v: Stored, strings': seq<Byte>, bytes': seq<Byte>)
    requires AllStored(strings, bytes, cs, vs) && |strings| == StringTotal(cs) && |bytes| == BytesTotal(cs)
    ensures AllStored(strings', bytes', cs + [c], vs + [v])
    ensures |strings'| == StringTotal(cs + [c]) && |bytes'| == BytesTotal(cs + [c])
  {
    v, strings', bytes' := Plain(c), strings, bytes;
    if c.StringConst? {
      v, strings' := StringAt(|strings|), strings + c.raw + [0];
    } else if c.BytesConst? {
      v, bytes' := BytesAt(|bytes|, |c.raw|), bytes + c.raw;
    }
    StoredStays(strings, bytes, strings', bytes', cs, vs);
    assert (cs + [c])[..|cs|] == cs;
  }

  lemma OneMore(cs: seq<Constant>, c: Constant)
    ensures StringTotal(cs + [c]) == StringTotal(cs) + (if c.StringConst? then |c.raw| + 1 else 0)
    ensures BytesTotal(cs + [c]) == BytesTotal(cs) + (if c.BytesConst? then |c.raw| else 0)
  {
    assert (cs + [c])[..|cs|] == cs;
  }

  lemma OverLimit(p: seq<Byte> -> Parsed<Constant>, b: seq<Byte>, n: nat, cs: seq<Constant>, size: nat, rest: Parsed<seq<Constant>>)
    requires ParseList(p, b, n) == Resumed(cs, size, rest)
    requires StringTotal(cs) > MAX_STRING_BYTES || BytesTotal(cs) > MAX_BYTES_STORAGE
    ensures forall other :: !ConstantsOf(p, b, n, other)
  {
    if rest.Done? { TotalsGrow(cs, rest.value); }
  }
}
