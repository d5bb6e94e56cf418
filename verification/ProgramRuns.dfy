/**
  What linking must keep: a program and its `.text` section run the same
  before and after the linker joined them.  Before linking, a relocated call
  goes to the `.text` instruction it names and a relocated load yields the
  address it names; afterwards there is one run of instructions and every
  call is relative to the program counter (section 4.3.2 of RFC 9669).
*/
module ProgramRuns {
  import opened Basics
  import opened ProgramLink

  datatype Section = Section(insns: seq<Insn>, relocs: seq<Reloc>)

  datatype Whole = Whole(main: Section, text: Section)

  datatype Place = InMain(at: int) | InText(at: int)

  /** Where a run is, with the places its callers continue at. */
  datatype Status = At(place: Place, callers: seq<Place>) | Finished | Stuck

  function RelocAt(relocs: seq<Reloc>, i: int): (r: Option<Reloc>)
    ensures r.Some? ==> r.value in relocs && r.value.insnIdx == i
    ensures r.None? ==> forall s :: s in relocs ==> s.insnIdx != i
  {
    if relocs == [] then None
    else if relocs[0].insnIdx == i then Some(relocs[0])
    else RelocAt(relocs[1..], i)
  }

  /** Relocations as bpf_program__record_reloc admits them, and the second half
      of a wide instruction present and without an opcode of its own. */
  ghost predicate WellFormed(s: Section) {
    && (forall j: nat :: j < |s.relocs| ==> Recorded(s.insns, s.relocs[j]))
    && (forall j: nat, k: nat :: j < k < |s.relocs| ==> s.relocs[j].insnIdx != s.relocs[k].insnIdx)
    && (forall i: nat :: i < |s.insns| ==> WideWhole(s.insns, i))
  }

  predicate Recorded(insns: seq<Insn>, r: Reloc) {
    && r.insnIdx < |insns|
    && var insn := insns[r.insnIdx];
       if r.kind == CallText then insn.code == CALL && insn.src == PSEUDO_CALL && r.symOff % 8 == 0
       else insn.code == LOAD_WIDE
  }

  predicate WideWhole(insns: seq<Insn>, i: nat)
    requires i < |insns|
  {
    insns[i].code == LOAD_WIDE ==> i + 1 < |insns| && insns[i + 1].code == 0
  }

  lemma WellFormedSeparate(s: Section)
    requires WellFormed(s)
    ensures Separate(s.relocs)
  {
    forall j: nat, k: nat, i: int | j < k < |s.relocs| && Covers(s.relocs[j], i)
      ensures !Covers(s.relocs[k], i)
    {
      assert Recorded(s.insns, s.relocs[j]) && Recorded(s.insns, s.relocs[k]);
      assert WideWhole(s.insns, s.relocs[j].insnIdx) && WideWhole(s.insns, s.relocs[k].insnIdx);
    }
  }

  // ---------- running ----------

  function In(w: Whole, p: Place): Section {
    if p.InMain? then w.main else w.text
  }

  function Enter(w: Whole, p: Place, callers: seq<Place>): Status {
    if 0 <= p.at < |In(w, p).insns| then At(p, callers) else Stuck
  }

  predicate IsJump(code: int) {
    code % 8 in {5, 6} && code != CALL && code != EXIT
  }

  function JumpDistance(insn: Insn): int {
    if insn.code == 0x06 then insn.imm else insn.off
  }

  /** The place a call names: through its relocation, or relative to itself. */
  function CallTarget(w: Whole, p: Place, insn: Insn): Place {
    match RelocAt(In(w, p).relocs, p.at)
    case Some(r) => InText(r.symOff / 8 + insn.imm + 1)
    case None => p.(at := p.at + 1 + insn.imm)
  }

  /** One instruction; `taken` settles a conditional jump. */
  function Step(w: Whole, st: Status, taken: bool): Status {
    if !st.At? then st else
    var p := st.place;
    var insns := In(w, p).insns;
    if !(0 <= p.at < |insns|) || insns[p.at].code == 0 then Stuck else
    var insn := insns[p.at];
    if insn.code == CALL && insn.src == PSEUDO_CALL then
      Enter(w, CallTarget(w, p, insn), st.callers + [p.(at := p.at + 1)])
    else if insn.code == EXIT then
      if st.callers == [] then Finished
      else Enter(w, st.callers[|st.callers| - 1], st.callers[..|st.callers| - 1])
    else if IsJump(insn.code) && (taken || insn.code in {0x05, 0x06}) then
      Enter(w, p.(at := p.at + 1 + JumpDistance(insn)), st.callers)
    else
      Enter(w, p.(at := p.at + (if insn.code == LOAD_WIDE then 2 else 1)), st.callers)
  }

  /** What an instruction does besides moving on. */
  datatype Effect =
    | MapAddress(dst: int, fd: int)
    | ValueAddress(dst: int, fd: int, offset: int)
    | Constant(insn: Insn, high: int)
    | Subprogram
    | Other(insn: Insn)

  function Decoded(insns: seq<Insn>, i: nat): Effect
    requires i < |insns|
  {
    var insn := insns[i];
    if insn.code == CALL && insn.src == PSEUDO_CALL then Subprogram
    else if insn.code == LOAD_WIDE && i + 1 < |insns| then
      if insn.src == PSEUDO_MAP_FD then MapAddress(insn.dst, insn.imm)
      else if insn.src == PSEUDO_MAP_VALUE then ValueAddress(insn.dst, insn.imm, insns[i + 1].imm)
      else Constant(insn, insns[i + 1].imm)
    else Other(insn)
  }

  function Named(insn: Insn, r: Reloc, m: Maps): Option<Effect> {
    match r.kind
    case CallText => Some(Subprogram)
    case LoadMapFd => if r.mapIdx < |m.fds| then Some(MapAddress(insn.dst, m.fds[r.mapIdx])) else None
    case LoadData =>
      if r.mapIdx < |m.fds| then Some(ValueAddress(insn.dst, m.fds[r.mapIdx], Wrap32(insn.imm + r.symOff)))
      else None
    case LoadExtern =>
      if m.kconfig < |m.fds| then Some(ValueAddress(insn.dst, m.fds[m.kconfig], r.symOff)) else None
    case Unknown => None
  }

  function EffectAt(w: Whole, m: Maps, st: Status): Option<Effect> {
    if !st.At? then None else
    var p := st.place;
    var s := In(w, p);
    if !(0 <= p.at < |s.insns|) || s.insns[p.at].code == 0 then None else
    match RelocAt(s.relocs, p.at)
    case Some(r) => Named(s.insns[p.at], r, m)
    case None => Some(Decoded(s.insns, p.at))
  }

  function Run(w: Whole, st: Status, choices: seq<bool>): Status
    decreases |choices|
  {
    if choices == [] then st else Run(w, Step(w, st, choices[0]), choices[1..])
  }

  function Trace(w: Whole, m: Maps, st: Status, choices: seq<bool>): seq<Option<Effect>>
    decreases |choices|
  {
    if choices == [] then [] else [EffectAt(w, m, st)] + Trace(w, m, Step(w, st, choices[0]), choices[1..])
  }

  // ---------- linked programs run the same ----------

  function Image(p: Place, base: nat): Place {
    if p.InMain? then p else InMain(base + p.at)
  }

  function ImageAll(ps: seq<Place>, base: nat): (r: seq<Place>)
    ensures |r| == |ps|
    ensures forall i :: 0 <= i < |ps| ==> r[i] == Image(ps[i], base)
  {
    if ps == [] then [] else ImageAll(ps[..|ps| - 1], base) + [Image(ps[|ps| - 1], base)]
  }

  function ImageOf(st: Status, base: nat): Status {
    if st.At? then At(Image(st.place, base), ImageAll(st.callers, base)) else st
  }

  /** `now` is the whole program after bpf_object__relocate, which left `.text`
      as `text`. */
  ghost predicate JoinedFrom(w: Whole, m: Maps, text: seq<Insn>, now: seq<Insn>) {
    && WellFormed(w.main) && WellFormed(w.text)
    && |w.main.insns| + |w.text.insns| < 0x8000_0000
    && Patched(w.text.insns, text, w.text.relocs, |w.text.relocs|, 0, m)
    && Patched(Joined(w.main.insns, text, w.main.relocs, |w.main.relocs|, false), now,
               w.main.relocs, |w.main.relocs|, |w.main.insns|, m)
  }

  /** The object's programs after Relocate meet JoinedFrom. */
  lemma LinkedIsJoined(w: Whole, m: Maps, text: State, now: State, before: seq<Insn>)
    requires WellFormed(w.main) && WellFormed(w.text)
    requires |w.main.insns| + |w.text.insns| < 0x8000_0000
    requires Linked(Code(w.text.insns, 0, w.text.relocs), before, true, m, text)
    requires Linked(Code(w.main.insns, 0, w.main.relocs), text.insns, false, m, now)
    ensures JoinedFrom(w, m, text.insns, now.insns)
  {
  }

  /** Relocated or not, what is at instruction `i` afterwards. */
  ghost predicate Carried(s: Section, i: nat, now: seq<Insn>, at: nat, base: int, m: Maps)
    requires i < |s.insns|
  {
    var insn := s.insns[i];
    at < |now| && (insn.code == LOAD_WIDE ==> at + 1 < |now| && i + 1 < |s.insns|) &&
    match RelocAt(s.relocs, i)
    case None =>
      now[at] == insn && (insn.code == LOAD_WIDE ==> now[at + 1].imm == s.insns[i + 1].imm)
    case Some(r) =>
      if r.kind == CallText
      then insn.code == CALL && insn.src == PSEUDO_CALL &&
        now[at] == insn.(imm := Wrap32(insn.imm + r.symOff / 8 + base - i))
      else insn.code == LOAD_WIDE && now[at].code == LOAD_WIDE && Named(insn, r, m) == Some(Decoded(now, at))
  }

  lemma RelocIsCarried(s: Section, orig: seq<Insn>, now: seq<Insn>, base: int, m: Maps, i: nat, j: nat)
    requires i < |s.insns| && j < |s.relocs| && s.insns <= orig
    requires Recorded(s.insns, s.relocs[j]) && WideWhole(s.insns, i)
    requires RelocAt(s.relocs, i) == Some(s.relocs[j])
    requires i + 1 < |orig| == |now| && Resolved(orig, now, s.relocs[j], base, m)
    ensures Carried(s, i, now, i, base, m)
  {
    hide RelocAt;
    assert s.insns[i] == orig[i];
  }

  lemma NotTouched(s: Section, i: nat)
    requires WellFormed(s) && i < |s.insns| && s.insns[i].code != 0 && RelocAt(s.relocs, i) == None
    ensures !Touched(s.relocs, |s.relocs|, i)
    ensures s.insns[i].code == LOAD_WIDE ==> !Touched(s.relocs, |s.relocs|, i + 1)
  {
    hide RelocAt;
    assert WideWhole(s.insns, i);
    forall j: nat | j < |s.relocs|
      ensures !Covers(s.relocs[j], i)
      ensures s.insns[i].code == LOAD_WIDE ==> !Covers(s.relocs[j], i + 1)
    {
      assert s.relocs[j] in s.relocs;
      assert Recorded(s.insns, s.relocs[j]);
      assert WideWhole(s.insns, s.relocs[j].insnIdx);
    }
  }

  lemma PatchedCarries(s: Section, orig: seq<Insn>, now: seq<Insn>, base: int, m: Maps, i: nat)
    requires WellFormed(s) && s.insns <= orig
    requires Patched(orig, now, s.relocs, |s.relocs|, base, m)
    requires i < |s.insns| && s.insns[i].code != 0
    ensures Carried(s, i, now, i, base, m)
  {
    hide RelocAt, Covers, Resolved, Touched, Named;
    assert WideWhole(s.insns, i);
    match RelocAt(s.relocs, i)
    case Some(r) =>
      var j :| 0 <= j < |s.relocs| && s.relocs[j] == r;
      assert Recorded(s.insns, s.relocs[j]);
      RelocIsCarried(s, orig, now, base, m, i, j);
    case None =>
      NotTouched(s, i);
      assert now[i] == orig[i] == s.insns[i];
  }

  /** The appended copy is `.text` as its own relocations left it. */
  lemma CopyKept(w: Whole, m: Maps, text: seq<Insn>, now: seq<Insn>)
    requires JoinedFrom(w, m, text, now) && CallsBefore(w.main.relocs, |w.main.relocs|)
    ensures |now| == |w.main.insns| + |text|
    ensures forall k: nat :: k < |text| ==> now[|w.main.insns| + k] == text[k]
  {
    hide Resolved, RelocAt;
    forall k: nat | k < |text| ensures now[|w.main.insns| + k] == text[k] {
      NotTouchedBeyond(w.main, |w.main.insns| + k);
    }
  }

  lemma NotTouchedBeyond(s: Section, i: nat)
    requires WellFormed(s) && |s.insns| <= i
    ensures !Touched(s.relocs, |s.relocs|, i)
  {
    forall j: nat | j < |s.relocs| ensures !Covers(s.relocs[j], i) {
      assert Recorded(s.insns, s.relocs[j]);
      assert WideWhole(s.insns, s.relocs[j].insnIdx);
    }
  }

  function Base(w: Whole, p: Place): int {
    if p.InMain? then |w.main.insns| else 0
  }

  predicate Known(w: Whole, p: Place) {
    p.InMain? || CallsBefore(w.main.relocs, |w.main.relocs|)
  }

  ghost predicate KnownState(w: Whole, st: Status) {
    st.At? ==>
      0 <= st.place.at < |In(w, st.place).insns| && Known(w, st.place) &&
      forall i :: 0 <= i < |st.callers| ==> Known(w, st.callers[i])
  }

  lemma PlaceCarried(w: Whole, m: Maps, text: seq<Insn>, now: seq<Insn>, p: Place)
    requires JoinedFrom(w, m, text, now) && Known(w, p)
    requires 0 <= p.at < |In(w, p).insns| && In(w, p).insns[p.at].code != 0
    ensures Carried(In(w, p), p.at, now, Image(p, |w.main.insns|).at, Base(w, p), m)
  {
    hide RelocAt, Patched, WellFormed, Named;
    if p.InMain? {
      PatchedCarries(w.main, Joined(w.main.insns, text, w.main.relocs, |w.main.relocs|, false), now,
                     |w.main.insns|, m, p.at);
    } else {
      PatchedCarries(w.text, w.text.insns, text, 0, m, p.at);
      CopyKept(w, m, text, now);
      assert now[|w.main.insns| + p.at] == text[p.at];
    }
  }

  function Alone(now: seq<Insn>): Whole {
    Whole(Section(now, []), Section([], []))
  }

  lemma EffectKept(w: Whole, m: Maps, text: seq<Insn>, now: seq<Insn>, st: Status, taken: bool)
    requires JoinedFrom(w, m, text, now) && KnownState(w, st) && Step(w, st, taken) != Stuck
    ensures st.At? ==> EffectAt(w, m, st).Some?
    ensures EffectAt(Alone(now), m, ImageOf(st, |w.main.insns|)) == EffectAt(w, m, st)
  {
    hide JoinedFrom, WellFormed, Enter, CallTarget;
    if st.At? { PlaceCarried(w, m, text, now, st.place); }
  }

  lemma ImageInside(w: Whole, m: Maps, text: seq<Insn>, now: seq<Insn>, p: Place)
    requires JoinedFrom(w, m, text, now) && Known(w, p)
    requires 0 <= p.at < |In(w, p).insns|
    ensures 0 <= Image(p, |w.main.insns|).at < |now|
  {
    hide RelocAt, WellFormed;
    if p.InText? { CopyKept(w, m, text, now); }
  }

  lemma EnterKept(w: Whole, m: Maps, text: seq<Insn>, now: seq<Insn>, p: Place, q: Place, callers: seq<Place>)
    requires JoinedFrom(w, m, text, now) && Known(w, p)
    requires forall i :: 0 <= i < |callers| ==> Known(w, callers[i])
    requires Enter(w, p, callers) != Stuck && q == Image(p, |w.main.insns|)
    ensures KnownState(w, Enter(w, p, callers))
    ensures Enter(Alone(now), q, ImageAll(callers, |w.main.insns|)) ==
            ImageOf(Enter(w, p, callers), |w.main.insns|)
  {
    hide JoinedFrom;
    ImageInside(w, m, text, now, p);
  }

  /** The call's new displacement ends at the image of the place it named. */
  lemma TargetKept(w: Whole, m: Maps, text: seq<Insn>, now: seq<Insn>, p: Place)
    requires JoinedFrom(w, m, text, now) && Known(w, p)
    requires 0 <= p.at < |In(w, p).insns|
    requires In(w, p).insns[p.at].code == CALL && In(w, p).insns[p.at].src == PSEUDO_CALL
    requires var to := CallTarget(w, p, In(w, p).insns[p.at]); 0 <= to.at < |In(w, to).insns|
    ensures Known(w, CallTarget(w, p, In(w, p).insns[p.at]))
    ensures 0 <= Image(p, |w.main.insns|).at < |now|
    ensures CallTarget(Alone(now), Image(p, |w.main.insns|), now[Image(p, |w.main.insns|).at]) ==
            Image(CallTarget(w, p, In(w, p).insns[p.at]), |w.main.insns|)
  {
    hide WellFormed, Patched;
    PlaceCarried(w, m, text, now, p);
    match RelocAt(In(w, p).relocs, p.at)
    case None =>
    case Some(r) =>
      var j :| 0 <= j < |In(w, p).relocs| && In(w, p).relocs[j] == r;
      ImageInside(w, m, text, now, p);
  }

  lemma CarriedCode(s: Section, i: nat, now: seq<Insn>, at: nat, base: int, m: Maps)
    requires i < |s.insns| && Carried(s, i, now, at, base, m)
    ensures at < |now| && now[at].code == s.insns[i].code
    ensures now[at].code == CALL ==> now[at].src == s.insns[i].src
    ensures now[at].code != LOAD_WIDE && !(now[at].code == CALL && now[at].src == PSEUDO_CALL) ==> now[at] == s.insns[i]
  {
    hide RelocAt;
  }

  lemma CallKept(w: Whole, m: Maps, text: seq<Insn>, now: seq<Insn>, p: Place, callers: seq<Place>, taken: bool)
    requires JoinedFrom(w, m, text, now) && KnownState(w, At(p, callers))
    requires var insn := In(w, p).insns[p.at]; insn.code == CALL && insn.src == PSEUDO_CALL
    requires Step(w, At(p, callers), taken) != Stuck
    ensures KnownState(w, Step(w, At(p, callers), taken))
    ensures Step(Alone(now), ImageOf(At(p, callers), |w.main.insns|), taken) ==
            ImageOf(Step(w, At(p, callers), taken), |w.main.insns|)
  {
    hide JoinedFrom, RelocAt, CallTarget, Enter, Carried, ImageAll, IsJump;
    var base, insn, back := |w.main.insns|, In(w, p).insns[p.at], p.(at := p.at + 1);
    PlaceCarried(w, m, text, now, p);
    CarriedCode(In(w, p), p.at, now, Image(p, base).at, Base(w, p), m);
    EnterInside(w, CallTarget(w, p, insn), callers + [back]);
    TargetKept(w, m, text, now, p);
    var here := now[Image(p, base).at];
    EnterKept(w, m, text, now, CallTarget(w, p, insn), CallTarget(Alone(now), Image(p, base), here), callers + [back]);
    assert ImageAll(callers + [back], base) == ImageAll(callers, base) + [Image(back, base)];
  }

  lemma EnterInside(w: Whole, p: Place, callers: seq<Place>)
    requires Enter(w, p, callers) != Stuck
    ensures 0 <= p.at < |In(w, p).insns|
  {
  }

  lemma OnwardKept(w: Whole, m: Maps, text: seq<Insn>, now: seq<Insn>, p: Place, callers: seq<Place>, taken: bool)
    requires JoinedFrom(w, m, text, now) && KnownState(w, At(p, callers))
    requires var insn := In(w, p).insns[p.at]; !(insn.code == CALL && insn.src == PSEUDO_CALL)
    requires Step(w, At(p, callers), taken) != Stuck
    ensures KnownState(w, Step(w, At(p, callers), taken))
    ensures Step(Alone(now), ImageOf(At(p, callers), |w.main.insns|), taken) ==
            ImageOf(Step(w, At(p, callers), taken), |w.main.insns|)
  {
    hide JoinedFrom, RelocAt, CallTarget, Enter, Carried, ImageAll, JumpDistance;
    var base, insn := |w.main.insns|, In(w, p).insns[p.at];
    PlaceCarried(w, m, text, now, p);
    CarriedCode(In(w, p), p.at, now, Image(p, base).at, Base(w, p), m);
    if insn.code == EXIT {
      if callers != [] {
        var n := |callers| - 1;
        EnterKept(w, m, text, now, callers[n], Image(callers[n], base), callers[..n]);
        assert ImageAll(callers, base)[..n] == ImageAll(callers[..n], base);
      }
    } else {
      var d := if insn.code != EXIT && IsJump(insn.code) && (taken || insn.code in {0x05, 0x06})
               then 1 + JumpDistance(insn)
               else if insn.code == LOAD_WIDE then 2 else 1;
      var q := p.(at := p.at + d);
      EnterKept(w, m, text, now, q, Image(q, base), callers);
    }
  }

  lemma StepKept(w: Whole, m: Maps, text: seq<Insn>, now: seq<Insn>, st: Status, taken: bool)
    requires JoinedFrom(w, m, text, now) && KnownState(w, st)
    requires Step(w, st, taken) != Stuck
    ensures KnownState(w, Step(w, st, taken))
    ensures Step(Alone(now), ImageOf(st, |w.main.insns|), taken) == ImageOf(Step(w, st, taken), |w.main.insns|)
  {
    if st.At? {
      hide JoinedFrom, RelocAt, CallTarget, Enter, ImageAll, IsJump;
      var insn := In(w, st.place).insns[st.place.at];
      if insn.code == CALL && insn.src == PSEUDO_CALL {
        CallKept(w, m, text, now, st.place, st.callers, taken);
      } else {
        OnwardKept(w, m, text, now, st.place, st.callers, taken);
      }
    }
  }

  lemma {:induction false} StuckStays(w: Whole, choices: seq<bool>)
    ensures Run(w, Stuck, choices) == Stuck
    decreases |choices|
  {
    if choices != [] { StuckStays(w, choices[1..]); }
  }

  /** Every run that stays inside its sections, and all it does, is kept. */
  lemma {:induction false} RunsKept(w: Whole, m: Maps, text: seq<Insn>, now: seq<Insn>, st: Status, choices: seq<bool>)
    requires JoinedFrom(w, m, text, now) && KnownState(w, st)
    requires Run(w, st, choices) != Stuck
    ensures Run(Alone(now), ImageOf(st, |w.main.insns|), choices) == ImageOf(Run(w, st, choices), |w.main.insns|)
    ensures Trace(Alone(now), m, ImageOf(st, |w.main.insns|), choices) == Trace(w, m, st, choices)
    decreases |choices|
  {
    if choices != [] {
      hide JoinedFrom, Step, EffectAt, ImageOf, Alone, KnownState;
      StuckStays(w, choices);
      StepKept(w, m, text, now, st, choices[0]);
      EffectKept(w, m, text, now, st, choices[0]);
      RunsKept(w, m, text, now, Step(w, st, choices[0]), choices[1..]);
    }
  }

  /** The programs that a successful Object.Relocate leaves run as the object's
      sections did, from the first instruction on. */
  lemma LinkingKeepsRuns(w: Whole, m: Maps, text: State, before: seq<Insn>, now: State, choices: seq<bool>)
    requires WellFormed(w.main) && WellFormed(w.text) && w.main.insns != []
    requires |w.main.insns| + |w.text.insns| < 0x8000_0000
    requires Linked(Code(w.text.insns, 0, w.text.relocs), before, true, m, text)
    requires Linked(Code(w.main.insns, 0, w.main.relocs), text.insns, false, m, now)
    requires Run(w, At(InMain(0), []), choices) != Stuck
    ensures Run(Alone(now.insns), At(InMain(0), []), choices) ==
            ImageOf(Run(w, At(InMain(0), []), choices), |w.main.insns|)
    ensures Trace(Alone(now.insns), m, At(InMain(0), []), choices) == Trace(w, m, At(InMain(0), []), choices)
  {
    LinkedIsJoined(w, m, text, now, before);
    hide JoinedFrom, Step, Linked, WellFormed;
    RunsKept(w, m, text.insns, now.insns, At(InMain(0), []), choices);
  }
}
