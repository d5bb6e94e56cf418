/**
  The in-process linker of libbpf: every program that calls a subprogram gets
  the `.text` section appended once, calls are re-aimed and map loads get
  their file descriptors.  Instructions follow RFC 9669: a call with source
  register 1 goes to the instruction `imm + 1` further on (section 4.3.2).
*/
module ProgramLink {

  const CALL := 0x85
  const EXIT := 0x95
  const LOAD_WIDE := 0x18
  const PSEUDO_CALL := 1
  const PSEUDO_MAP_FD := 1
  const PSEUDO_MAP_VALUE := 2

  datatype Insn = Insn(code: int, dst: int, src: int, off: int, imm: int)

  datatype RelocKind = LoadMapFd | CallText | LoadData | LoadExtern | Unknown

  datatype Reloc = Reloc(kind: RelocKind, insnIdx: nat, mapIdx: nat, symOff: int)

  datatype Maps = Maps(fds: seq<int>, kconfig: nat)

  datatype Status = Ok | BadReloc | Invalid

  /** A value stored in the signed 32-bit immediate of an instruction. */
  function Wrap32(x: int): (r: int)
    ensures -0x8000_0000 <= r < 0x8000_0000
    ensures -0x8000_0000 <= x < 0x8000_0000 ==> r == x
  {
    (x + 0x8000_0000) % 0x1_0000_0000 - 0x8000_0000
  }

  // ---------- what one relocation does to the instructions ----------

  predicate Covers(r: Reloc, i: int) {
    i == r.insnIdx || (r.kind != CallText && i == r.insnIdx + 1)
  }

  ghost predicate Touched(relocs: seq<Reloc>, n: nat, i: int)
    requires n <= |relocs|
  {
    exists j: nat :: j < n && Covers(relocs[j], i)
  }

  /** No two relocations write the same slot. */
  ghost predicate Separate(relocs: seq<Reloc>) {
    forall j: nat, k: nat, i: int ::
      j < k < |relocs| && Covers(relocs[j], i) ==> !Covers(relocs[k], i)
  }

  predicate MapsKnown(relocs: seq<Reloc>, m: Maps) {
    forall j: nat :: j < |relocs| ==>
      (relocs[j].kind in {LoadMapFd, LoadData} ==> relocs[j].mapIdx < |m.fds|) &&
      (relocs[j].kind == LoadExtern ==> m.kconfig < |m.fds|)
  }

  /** `now` holds `orig` with the relocation carried out; `base` is where
      `.text` starts in the program. */
  predicate Resolved(orig: seq<Insn>, now: seq<Insn>, r: Reloc, base: int, m: Maps)
    requires |orig| == |now| && r.insnIdx + 1 < |orig|
  {
    var k := r.insnIdx;
    match r.kind
    case CallText =>
      now[k] == orig[k].(imm := Wrap32(orig[k].imm + r.symOff / 8 + base - k))
    case LoadMapFd =>
      r.mapIdx < |m.fds| && now[k] == orig[k].(src := PSEUDO_MAP_FD, imm := m.fds[r.mapIdx]) &&
      now[k + 1] == orig[k + 1]
    case LoadData =>
      r.mapIdx < |m.fds| && now[k] == orig[k].(src := PSEUDO_MAP_VALUE, imm := m.fds[r.mapIdx]) &&
      now[k + 1] == orig[k + 1].(imm := Wrap32(orig[k].imm + r.symOff))
    case LoadExtern =>
      m.kconfig < |m.fds| && now[k] == orig[k].(src := PSEUDO_MAP_VALUE, imm := m.fds[m.kconfig]) &&
      now[k + 1] == orig[k + 1].(imm := r.symOff)
    case Unknown => false
  }

  ghost predicate Patched(orig: seq<Insn>, now: seq<Insn>, relocs: seq<Reloc>, n: nat,
                          base: int, m: Maps)
    requires n <= |relocs|
  {
    && |orig| == |now|
    && (forall j: nat :: j < n ==> relocs[j].insnIdx + 1 < |orig| && Resolved(orig, now, relocs[j], base, m))
    && (forall i: nat :: i < |orig| && !Touched(relocs, n, i) ==> now[i] == orig[i])
  }

  predicate CallsBefore(relocs: seq<Reloc>, n: nat)
    requires n <= |relocs|
  {
    exists j: nat :: j < n && relocs[j].kind == CallText
  }

  lemma PatchedStep(orig: seq<Insn>, was: seq<Insn>, now: seq<Insn>, relocs: seq<Reloc>, n: nat,
                    base: int, m: Maps)
    requires n < |relocs| && Separate(relocs)
    requires Patched(orig, was, relocs, n, base, m)
    requires relocs[n].insnIdx + 1 < |orig| && |now| == |was|
    requires Resolved(was, now, relocs[n], base, m)
    requires forall i: nat :: i < |was| && !Covers(relocs[n], i) ==> now[i] == was[i]
    ensures Patched(orig, now, relocs, n + 1, base, m)
  {
    var r := relocs[n];
    forall i: nat | i < |orig| && Covers(r, i) ensures was[i] == orig[i] {
      assert !Touched(relocs, n, i);
    }
    assert Covers(r, r.insnIdx);
    assert r.kind != CallText ==> Covers(r, r.insnIdx + 1);
    assert Resolved(orig, now, r, base, m);
    forall j: nat | j < n ensures Resolved(orig, now, relocs[j], base, m) {
      var s := relocs[j];
      assert Covers(s, s.insnIdx);
      assert s.kind != CallText ==> Covers(s, s.insnIdx + 1);
    }
    forall i: nat | i < |orig| && !Touched(relocs, n + 1, i) ensures now[i] == orig[i] {
      assert !Covers(r, i);
      assert !Touched(relocs, n, i);
    }
  }

  lemma PatchedGrows(orig: seq<Insn>, now: seq<Insn>, relocs: seq<Reloc>, n: nat,
                     base: int, newBase: int, m: Maps, more: seq<Insn>)
    requires n <= |relocs| && !CallsBefore(relocs, n)
    requires Patched(orig, now, relocs, n, base, m)
    ensures Patched(orig + more, now + more, relocs, n, newBase, m)
  {
    forall j: nat | j < n ensures Resolved(orig + more, now + more, relocs[j], newBase, m) {
      assert relocs[j].kind != CallText;
      assert Resolved(orig, now, relocs[j], base, m);
    }
    forall i: nat | i < |orig + more| && !Touched(relocs, n, i) ensures (now + more)[i] == (orig + more)[i] {
    }
  }

  lemma PatchedLength(orig: seq<Insn>, now: seq<Insn>, relocs: seq<Reloc>, n: nat, base: int, m: Maps)
    requires n <= |relocs| && Patched(orig, now, relocs, n, base, m)
    ensures |orig| == |now|
  {
  }

  // ---------- the programs of an object ----------

  class Program {
    const idx: int
    var insns: seq<Insn>
    var mainProgCnt: nat
    var relocs: seq<Reloc>

    constructor (idx: int, insns: seq<Insn>, relocs: seq<Reloc>)
      ensures this.idx == idx && this.insns == insns && mainProgCnt == 0 && this.relocs == relocs
    {
      this.idx := idx;
      this.insns := insns;
      this.mainProgCnt := 0;
      this.relocs := relocs;
    }

    function State(): State
      reads this
    {
      Code(insns, mainProgCnt, relocs)
    }
  }

  datatype State = Code(insns: seq<Insn>, mainProgCnt: nat, relocs: seq<Reloc>)

  /** The program of the section, if the object has one. */
  function FindProgram(programs: seq<Program>, idx: int): (r: Program?)
    ensures r != null ==> r in programs && r.idx == idx
    ensures r == null ==> forall p :: p in programs ==> p.idx != idx
  {
    if programs == [] then null
    else if programs[0].idx == idx then programs[0]
    else FindProgram(programs[1..], idx)
  }

  /** How many instructions the program has when relocation `n` is reached. */
  function CountAt(len: nat, textLen: nat, relocs: seq<Reloc>, n: nat, isText: bool): nat
    requires n <= |relocs|
  {
    len + (if !isText && CallsBefore(relocs, n) then textLen else 0)
  }

  /** The relocation meets none of the three error returns. */
  predicate Accepted(len: nat, textLen: nat, hasText: bool, isText: bool, relocs: seq<Reloc>, n: nat)
    requires n < |relocs|
  {
    && relocs[n].insnIdx + 1 < CountAt(len, textLen, relocs, n, isText)
    && relocs[n].kind != Unknown
    && (relocs[n].kind == CallText ==> isText || hasText)
  }

  predicate AcceptedUpTo(len: nat, textLen: nat, hasText: bool, isText: bool, relocs: seq<Reloc>, n: nat)
    requires n <= |relocs|
  {
    forall j {:trigger relocs[j]} :: 0 <= j < n ==> Accepted(len, textLen, hasText, isText, relocs, j)
  }

  lemma AcceptedNone(len: nat, textLen: nat, hasText: bool, isText: bool, relocs: seq<Reloc>)
    ensures AcceptedUpTo(len, textLen, hasText, isText, relocs, 0)
  {
  }

  /** A call accepted earlier shows that the object has a `.text` program. */
  lemma AcceptedNext(len: nat, textLen: nat, hasText: bool, isText: bool, relocs: seq<Reloc>, n: nat)
    requires n < |relocs| && AcceptedUpTo(len, textLen, hasText, isText, relocs, n)
    ensures AcceptedUpTo(len, textLen, hasText, isText, relocs, n + 1) <==>
            Accepted(len, textLen, hasText || CallsBefore(relocs, n), isText, relocs, n)
    ensures AcceptedUpTo(len, textLen, hasText, isText, relocs, |relocs|) ==>
            AcceptedUpTo(len, textLen, hasText, isText, relocs, n + 1)
  {
    if CallsBefore(relocs, n) {
      var j: nat :| j < n && relocs[j].kind == CallText;
      assert Accepted(len, textLen, hasText, isText, relocs, j);
    }
    var known := hasText || CallsBefore(relocs, n);
    if AcceptedUpTo(len, textLen, hasText, isText, relocs, n + 1) {
      assert relocs[n].kind == CallText ==> isText || hasText;
    } else if Accepted(len, textLen, known, isText, relocs, n) {
      forall j: nat | j < n + 1 ensures Accepted(len, textLen, hasText, isText, relocs, j) {
        assert relocs[j].kind == CallText ==> isText || hasText;
      }
      assert false;
    }
  }

  /** The instructions before any value is patched in: the program itself, with
      `.text` behind it once a call has been seen. */
  function Joined(insns: seq<Insn>, text: seq<Insn>, relocs: seq<Reloc>, n: nat, isText: bool): seq<Insn>
    requires n <= |relocs|
  {
    if !isText && CallsBefore(relocs, n) then insns + text else insns
  }

  /** State of a program after its first `n` relocations. */
  ghost predicate Halfway(insns: seq<Insn>, text: seq<Insn>, isText: bool, relocs: seq<Reloc>, n: nat,
                          m: Maps, now: seq<Insn>, mainProgCnt: nat)
    requires n <= |relocs|
  {
    && mainProgCnt == (if !isText && CallsBefore(relocs, n) then |insns| else 0)
    && Patched(Joined(insns, text, relocs, n, isText), now, relocs, n, if isText then 0 else |insns|, m)
  }

  lemma StartsHalfway(insns: seq<Insn>, text: seq<Insn>, isText: bool, relocs: seq<Reloc>, m: Maps)
    ensures Halfway(insns, text, isText, relocs, 0, m, insns, 0)
  {
    assert !CallsBefore(relocs, 0);
  }

  /** What loading leaves behind: every relocation names an instruction of the
      program (it was looked at when the relocation was recorded), no two of
      them the same one, and maps that exist. */
  ghost predicate ReadyToLink(was: State, m: Maps) {
    && was.mainProgCnt == 0
    && Separate(was.relocs) && MapsKnown(was.relocs, m)
    && forall j: nat :: j < |was.relocs| ==> was.relocs[j].insnIdx < |was.insns|
  }

  /** No relocation of the program meets an error return. */
  predicate Linkable(was: State, textLen: nat, hasText: bool, isText: bool) {
    AcceptedUpTo(|was.insns|, textLen, hasText, isText, was.relocs, |was.relocs|)
  }

  /** The program after all its relocations, `text` being `.text` after its own. */
  ghost predicate Linked(was: State, text: seq<Insn>, isText: bool, m: Maps, now: State) {
    && now.relocs == []
    && Halfway(was.insns, text, isText, was.relocs, |was.relocs|, m, now.insns, now.mainProgCnt)
  }

  lemma LinkedTextLength(was: State, text: seq<Insn>, m: Maps, now: State)
    requires Linked(was, text, true, m, now)
    ensures |now.insns| == |was.insns|
  {
  }

  lemma CallsBeforeNext(relocs: seq<Reloc>, n: nat)
    requires n < |relocs|
    ensures CallsBefore(relocs, n + 1) <==> CallsBefore(relocs, n) || relocs[n].kind == CallText
  {
    if relocs[n].kind == CallText { assert n < n + 1; }
  }

  class Object {
    var programs: seq<Program>
    var textIdx: int
    var maps: Maps

    constructor (programs: seq<Program>, textIdx: int, maps: Maps)
      ensures this.programs == programs && this.textIdx == textIdx && this.maps == maps
    {
      this.programs := programs;
      this.textIdx := textIdx;
      this.maps := maps;
    }

    function Text(): Program?
      reads this
    {
      FindProgram(programs, textIdx)
    }

    function TextInsns(): seq<Insn>
      reads this, Text()
    {
      if Text() == null then [] else Text().insns
    }

    /** bpf_program__reloc_text */
    method RelocText(prog: Program, relo: Reloc) returns (status: Status)
      requires relo.insnIdx < |prog.insns|
      modifies prog
      ensures prog.relocs == old(prog.relocs)
      ensures var appends := prog.idx != textIdx && old(prog.mainProgCnt) == 0;
        if appends && Text() == null
        then status == BadReloc && prog.insns == old(prog.insns) && prog.mainProgCnt == old(prog.mainProgCnt)
        else
          && status == Ok
          && prog.mainProgCnt == (if appends then |old(prog.insns)| else old(prog.mainProgCnt))
          && var grown := if appends then old(prog.insns) + old(TextInsns()) else old(prog.insns);
             |prog.insns| == |grown| &&
             prog.insns == grown[relo.insnIdx := grown[relo.insnIdx].(imm :=
               Wrap32(grown[relo.insnIdx].imm + relo.symOff / 8 + prog.mainProgCnt - relo.insnIdx))]
    {
      if prog.idx != textIdx && prog.mainProgCnt == 0 {
        var text := FindProgram(programs, textIdx);
        if text == null { return BadReloc; }
        prog.mainProgCnt := |prog.insns|;
        prog.insns := prog.insns + text.insns;
      }
      var insn := prog.insns[relo.insnIdx];
      prog.insns := prog.insns[relo.insnIdx :=
        insn.(imm := Wrap32(insn.imm + relo.symOff / 8 + prog.mainProgCnt - relo.insnIdx))];
      status := Ok;
    }

    /** The loads: a map, a value inside a map, an extern. */
    method RelocLoad(prog: Program, relo: Reloc, ghost base: int)
      requires relo.kind in {LoadMapFd, LoadData, LoadExtern} && relo.insnIdx + 1 < |prog.insns|
      requires MapsKnown([relo], maps)
      modifies prog
      ensures prog.relocs == old(prog.relocs) && prog.mainProgCnt == old(prog.mainProgCnt)
      ensures |prog.insns| == |old(prog.insns)| && Resolved(old(prog.insns), prog.insns, relo, base, maps)
      ensures forall i: nat :: i < |prog.insns| && !Covers(relo, i) ==> prog.insns[i] == old(prog.insns)[i]
    {
      var k := relo.insnIdx;
      assert [relo][0] == relo;
      match relo.kind {
        case LoadMapFd =>
          prog.insns := prog.insns[k := prog.insns[k].(src := PSEUDO_MAP_FD, imm := maps.fds[relo.mapIdx])];
        case LoadData =>
          prog.insns := prog.insns[k + 1 := prog.insns[k + 1].(imm := Wrap32(prog.insns[k].imm + relo.symOff))];
          prog.insns := prog.insns[k := prog.insns[k].(src := PSEUDO_MAP_VALUE, imm := maps.fds[relo.mapIdx])];
        case LoadExtern =>
          prog.insns := prog.insns[k := prog.insns[k].(src := PSEUDO_MAP_VALUE, imm := maps.fds[maps.kconfig])];
          prog.insns := prog.insns[k + 1 := prog.insns[k + 1].(imm := relo.symOff)];
      }
    }

    /** One turn of the loop in bpf_program__relocate. */
    method RelocateOne(prog: Program, i: nat, ghost insns: seq<Insn>, ghost text: seq<Insn>,
                       ghost relocs: seq<Reloc>) returns (status: Status)
      requires ReadyToLink(Code(insns, 0, relocs), maps)
      requires prog.relocs == relocs && i < |relocs| && (prog.idx != textIdx ==> text == TextInsns())
      requires Halfway(insns, text, prog.idx == textIdx, relocs, i, maps, prog.insns, prog.mainProgCnt)
      modifies prog
      ensures prog.relocs == relocs && (prog.idx != textIdx ==> text == TextInsns())
      ensures status == Ok <==>
        Accepted(|insns|, |text|, Text() != null || CallsBefore(relocs, i), prog.idx == textIdx, relocs, i)
      ensures status == Ok ==>
        Halfway(insns, text, prog.idx == textIdx, relocs, i + 1, maps, prog.insns, prog.mainProgCnt)
    {
      hide Separate, Patched, FindProgram, CallsBefore;
      ghost var base := if prog.idx == textIdx then 0 else |insns|;
      ghost var orig := Joined(insns, text, relocs, i, prog.idx == textIdx);
      ghost var was := prog.insns;
      CallsBeforeNext(relocs, i);
      PatchedLength(orig, was, relocs, i, base, maps);
      var relo := prog.relocs[i];
      var k := relo.insnIdx;
      if k + 1 >= |prog.insns| {
        return BadReloc;
      }
      match relo.kind {
        case LoadMapFd | LoadData | LoadExtern =>
          RelocLoad(prog, relo, base);
        case CallText =>
          status := RelocText(prog, relo);
          if status != Ok {
            return;
          }
          if prog.idx != textIdx && !CallsBefore(relocs, i) {
            PatchedGrows(insns, was, relocs, i, base, base, maps, text);
            orig, was := insns + text, was + text;
          }
        case Unknown =>
          return Invalid;
      }
      assert Resolved(was, prog.insns, relo, base, maps);
      PatchedStep(orig, was, prog.insns, relocs, i, base, maps);
      status := Ok;
    }

    /** bpf_program__relocate.  It fails at the first relocation that is not
        accepted, and then the relocations stay with the program. */
    method RelocateProgram(prog: Program) returns (status: Status)
      requires ReadyToLink(prog.State(), maps)
      modifies prog
      ensures status == Ok <==>
        Linkable(old(prog.State()), |old(TextInsns())|, Text() != null, prog.idx == textIdx)
      ensures status == Ok ==>
        Linked(old(prog.State()), old(TextInsns()), prog.idx == textIdx, maps, prog.State())
    {
      hide Separate, Patched, Halfway, Accepted, AcceptedUpTo, CallsBefore, FindProgram, MapsKnown;
      ghost var insns, text, isText := prog.insns, TextInsns(), prog.idx == textIdx;
      ghost var relocs := prog.relocs;
      StartsHalfway(insns, text, isText, relocs, maps);
      AcceptedNone(|insns|, |text|, Text() != null, isText, relocs);
      var i := 0;
      while i < |prog.relocs|
        invariant prog.relocs == relocs && i <= |relocs|
        invariant isText || text == TextInsns()
        invariant Halfway(insns, text, isText, relocs, i, maps, prog.insns, prog.mainProgCnt)
        invariant AcceptedUpTo(|insns|, |text|, Text() != null, isText, relocs, i)
      {
        AcceptedNext(|insns|, |text|, Text() != null, isText, relocs, i);
        status := RelocateOne(prog, i, insns, text, relocs);
        if status != Ok { return; }
        i := i + 1;
      }
      prog.relocs := [];
      status := Ok;
    }

    /** Programs come from different sections and are fresh from loading. */
    ghost predicate Loaded()
      reads this, programs
    {
      && (forall i: nat, j: nat :: i < j < |programs| ==> programs[i].idx != programs[j].idx)
      && (forall p :: p in programs ==> ReadyToLink(p.State(), maps))
    }

    /** The first loop of bpf_object__relocate. */
    method RelocateText() returns (status: Status)
      requires Loaded()
      modifies Text()
      ensures Text() == null ==> status == Ok
      ensures Text() != null ==>
        (status == Ok <==> Linkable(old(Text().State()), |old(TextInsns())|, true, true)) &&
        (status == Ok ==> Linked(old(Text().State()), old(TextInsns()), true, maps, Text().State()))
    {
      hide ReadyToLink, Linkable, Linked, FindProgram;
      var i := 0;
      while i < |programs|
        invariant i <= |programs|
        invariant forall j: nat :: j < i ==> programs[j].idx != textIdx
      {
        if programs[i].idx == textIdx {
          assert Text() == programs[i];
          status := RelocateProgram(programs[i]);
          return;
        }
        i := i + 1;
      }
      status := Ok;
    }

    /** The second loop of bpf_object__relocate; `was` is how the programs were. */
    method RelocateMains(ghost was: seq<State>) returns (status: Status)
      requires |was| == |programs|
      requires forall i: nat, j: nat :: i < j < |programs| ==> programs[i].idx != programs[j].idx
      requires forall j: nat :: j < |was| ==> ReadyToLink(was[j], maps)
      requires forall j: nat :: j < |was| && programs[j].idx != textIdx ==> programs[j].State() == was[j]
      modifies set p | p in programs && p.idx != textIdx
      ensures status == Ok <==> forall j: nat :: j < |was| && programs[j].idx != textIdx ==>
        Linkable(was[j], |TextInsns()|, Text() != null, false)
      ensures status == Ok ==> forall j: nat :: j < |was| && programs[j].idx != textIdx ==>
        Linked(was[j], TextInsns(), false, maps, programs[j].State())
    {
      hide ReadyToLink, Linkable, Linked, FindProgram;
      var i := 0;
      while i < |programs|
        invariant i <= |programs| && TextInsns() == old(TextInsns())
        invariant forall j: nat :: i <= j < |was| && programs[j].idx != textIdx ==> programs[j].State() == was[j]
        invariant forall j: nat :: j < i && programs[j].idx != textIdx ==>
          Linkable(was[j], |TextInsns()|, Text() != null, false)
        invariant forall j: nat :: j < i && programs[j].idx != textIdx ==>
          Linked(was[j], TextInsns(), false, maps, programs[j].State())
      {
        if programs[i].idx != textIdx {
          status := RelocateProgram(programs[i]);
          if status != Ok { return; }
        }
        i := i + 1;
      }
      status := Ok;
    }

    /** bpf_object__relocate: `.text` first, because it is copied as it then is. */
    method Relocate() returns (status: Status)
      requires Loaded()
      modifies programs
      ensures status == Ok <==> forall j: nat :: j < |programs| ==>
        Linkable(old(programs[j].State()), |old(TextInsns())|, Text() != null, programs[j].idx == textIdx)
      ensures status == Ok ==> forall j: nat :: j < |programs| ==>
        Linked(old(programs[j].State()), if programs[j].idx == textIdx then old(TextInsns()) else TextInsns(),
               programs[j].idx == textIdx, maps, programs[j].State())
    {
      hide ReadyToLink, Linkable, Linked, FindProgram;
      ghost var was := seq(|programs|, j requires 0 <= j < |programs| reads this, programs => programs[j].State());
      status := RelocateText();
      if status != Ok { return; }
      if Text() != null {
        LinkedTextLength(old(Text().State()), old(TextInsns()), maps, Text().State());
      }
      status := RelocateMains(was);
    }
  }
}
