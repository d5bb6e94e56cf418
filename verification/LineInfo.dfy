/**
  Line information of a JITed program: which of the recorded addresses belong
  to which function, and the search for the line of an address.
*/
module LineInfo {
  import opened Basics


  /** `idx` cuts the addresses into one run for each function: a run begins at
      the first place behind the previous beginning that holds the function's
      address, and every run but the last increases and stays within its symbol. */
  ghost predicate Dissected(jited: seq<Addr>, ksym: seq<Addr>, len: seq<Addr>, idx: seq<nat>) {
    && 0 < |idx| == |ksym| == |len|
    && idx[0] == 0 && 0 < |jited| && jited[0] == ksym[0]
    && forall f: nat :: 1 <= f < |idx| ==> Begins(jited, ksym, len, idx, f)
  }

  ghost predicate Begins(jited: seq<Addr>, ksym: seq<Addr>, len: seq<Addr>, idx: seq<nat>, f: nat)
    requires 1 <= f < |idx| == |ksym| == |len|
  {
    && idx[f - 1] < idx[f] < |jited| && jited[idx[f]] == ksym[f]
    && (forall i :: idx[f - 1] < i < idx[f] ==> jited[i - 1] < jited[i] && jited[i] != ksym[f])
    && Reach(jited[idx[f] - 1], ksym[f - 1]) <= len[f - 1]
  }

  /** From a function's address up to and with the last one, in 64 bits. */
  function Reach(last: Addr, first: Addr): int {
    ((last as int) - (first as int) + 1) % WORD
  }

  /** Where the run of function `f` ends. */
  function RunEnd(jited: seq<Addr>, idx: seq<nat>, f: nat): nat
    requires f < |idx|
  {
    if f + 1 < |idx| then idx[f + 1] else |jited|
  }

  lemma {:induction false} RunIncreases(jited: seq<Addr>, ksym: seq<Addr>, len: seq<Addr>, idx: seq<nat>, f: nat,
                                        i: nat, j: nat)
    requires Dissected(jited, ksym, len, idx) && f + 1 < |idx|
    requires idx[f] <= i < j < idx[f + 1]
    ensures j < |jited| && jited[i] < jited[j]
    decreases j
  {
    assert Begins(jited, ksym, len, idx, f + 1);
    if i < j - 1 { RunIncreases(jited, ksym, len, idx, f, i, j - 1); }
  }

  /** The addresses of a function but the last lie in its symbol, which no
      address is at zero. */
  lemma RunInSymbol(jited: seq<Addr>, ksym: seq<Addr>, len: seq<Addr>, idx: seq<nat>, f: nat, i: nat)
    requires Dissected(jited, ksym, len, idx) && f + 1 < |idx|
    requires idx[f] <= i < idx[f + 1] && ksym[f] > 0
    ensures i < |jited| && ksym[f] <= jited[i] && (jited[i] as int) < (ksym[f] as int) + (len[f] as int)
  {
    assert Begins(jited, ksym, len, idx, f + 1);
    assert f > 0 ==> Begins(jited, ksym, len, idx, f);
    if idx[f] < i { RunIncreases(jited, ksym, len, idx, f, idx[f], i); }
    if i < idx[f + 1] - 1 { RunIncreases(jited, ksym, len, idx, f, i, idx[f + 1] - 1); }
  }

  /** The runs tile all records. */
  lemma {:induction false} RunsTile(jited: seq<Addr>, ksym: seq<Addr>, len: seq<Addr>, idx: seq<nat>, i: nat,
                                    n: nat) returns (f: nat)
    requires Dissected(jited, ksym, len, idx) && n < |idx|
    requires i < RunEnd(jited, idx, n)
    ensures f <= n && idx[f] <= i < RunEnd(jited, idx, f)
    decreases n
  {
    if idx[n] <= i {
      f := n;
    } else {
      f := RunsTile(jited, ksym, len, idx, i, n - 1);
    }
  }

  lemma {:induction false} RunsOrdered(jited: seq<Addr>, ksym: seq<Addr>, len: seq<Addr>, idx: seq<nat>, f: nat, g: nat)
    requires Dissected(jited, ksym, len, idx) && f < g < |idx|
    ensures RunEnd(jited, idx, f) <= idx[g] && idx[f] < idx[g]
    decreases g
  {
    assert Begins(jited, ksym, len, idx, g);
    if f < g - 1 { RunsOrdered(jited, ksym, len, idx, f, g - 1); }
  }

  /** The cut is determined by the addresses. */
  lemma {:induction false} OneDissection(jited: seq<Addr>, ksym: seq<Addr>, len: seq<Addr>, a: seq<nat>, b: seq<nat>,
                                         f: nat)
    requires Dissected(jited, ksym, len, a) && Dissected(jited, ksym, len, b) && f < |a|
    ensures a[f] == b[f]
  {
    if f > 0 {
      OneDissection(jited, ksym, len, a, b, f - 1);
      assert Begins(jited, ksym, len, a, f) && Begins(jited, ksym, len, b, f);
    }
  }

  // ---------- finding the cut ----------

  /** The runs before function `f` are found, and its address is not in
      (idx[f - 1], i). */
  ghost predicate Searching(jited: seq<Addr>, ksym: seq<Addr>, len: seq<Addr>, idx: seq<nat>, f: nat, i: nat)
  {
    && 1 <= f <= |idx| == |ksym| == |len|
    && idx[0] == 0 && 0 < |jited| && jited[0] == ksym[0]
    && (forall g: nat :: 1 <= g < f ==> Begins(jited, ksym, len, idx, g))
    && idx[f - 1] < i <= |jited|
    && (f < |idx| ==> forall k :: idx[f - 1] < k < i ==> jited[k - 1] < jited[k] && jited[k] != ksym[f])
  }

  /** Any cut there is begins with what was found, and goes on no earlier than `i`. */
  lemma {:induction false} FoundIsForced(jited: seq<Addr>, ksym: seq<Addr>, len: seq<Addr>, idx: seq<nat>, f: nat,
                                         i: nat,
                                         other: seq<nat>, g: nat)
    requires Searching(jited, ksym, len, idx, f, i) && Dissected(jited, ksym, len, other) && g < f
    ensures other[g] == idx[g]
  {
    if g > 0 {
      FoundIsForced(jited, ksym, len, idx, f, i, other, g - 1);
      assert Begins(jited, ksym, len, idx, g) && Begins(jited, ksym, len, other, g);
    }
  }

  lemma NextIsLater(jited: seq<Addr>, ksym: seq<Addr>, len: seq<Addr>, idx: seq<nat>, f: nat, i: nat, other: seq<nat>)
    requires Searching(jited, ksym, len, idx, f, i) && f < |idx| && Dissected(jited, ksym, len, other)
    ensures other[f - 1] == idx[f - 1] && Begins(jited, ksym, len, other, f) && i <= other[f] < |jited|
  {
    FoundIsForced(jited, ksym, len, idx, f, i, other, f - 1);
    assert Begins(jited, ksym, len, other, f);
  }

  ghost predicate NoCut(jited: seq<Addr>, ksym: seq<Addr>, len: seq<Addr>) {
    forall other: seq<nat> :: !Dissected(jited, ksym, len, other)
  }

  lemma SearchFails(jited: seq<Addr>, ksym: seq<Addr>, len: seq<Addr>, idx: seq<nat>, f: nat, i: nat)
    requires Searching(jited, ksym, len, idx, f, i) && f < |idx|
    requires i < |jited| ==>
      if jited[i] == ksym[f] then Reach(jited[i - 1], ksym[f - 1]) > len[f - 1] else jited[i] <= jited[i - 1]
    ensures NoCut(jited, ksym, len)
  {
    forall other: seq<nat> ensures !Dissected(jited, ksym, len, other) {
      if Dissected(jited, ksym, len, other) {
        NextIsLater(jited, ksym, len, idx, f, i, other);
        assert false;
      }
    }
  }

  lemma SearchEnds(jited: seq<Addr>, ksym: seq<Addr>, len: seq<Addr>, idx: seq<nat>, i: nat)
    requires Searching(jited, ksym, len, idx, |idx|, i)
    ensures Dissected(jited, ksym, len, idx)
  {
  }

  class ProgLinfo {
    const insnOffs: seq<nat>
    const jited: seq<Addr>
    const nrJitedFunc: nat
    var nrPerFunc: array<nat>
    var funcIdx: array<nat>

    constructor (insnOffs: seq<nat>, jited: seq<Addr>, nrJitedFunc: nat)
      ensures this.insnOffs == insnOffs && this.jited == jited && this.nrJitedFunc == nrJitedFunc
      ensures nrPerFunc.Length == funcIdx.Length == nrJitedFunc && nrPerFunc != funcIdx
      ensures fresh(nrPerFunc) && fresh(funcIdx)
    {
      this.insnOffs := insnOffs;
      this.jited := jited;
      this.nrJitedFunc := nrJitedFunc;
      nrPerFunc := new nat[nrJitedFunc];
      funcIdx := new nat[nrJitedFunc];
    }

    /** The tables say which records belong to which function. */
    ghost predicate Cut(ksym: seq<Addr>, len: seq<Addr>)
      reads this, nrPerFunc, funcIdx
    {
      && nrPerFunc.Length == nrJitedFunc && Dissected(jited, ksym, len, funcIdx[..])
      && funcIdx.Length == nrJitedFunc
      && forall f: nat :: f < nrJitedFunc ==> funcIdx[f] + nrPerFunc[f] == RunEnd(jited, funcIdx[..], f)
    }

    /** dissect_jited_func: it succeeds exactly if the addresses can be cut. */
    method Dissect(ksym: seq<Addr>, len: seq<Addr>) returns (ok: bool)
      requires 0 < nrJitedFunc == |ksym| == |len| && 0 < |jited|
      requires nrPerFunc.Length == funcIdx.Length == nrJitedFunc && nrPerFunc != funcIdx
      modifies nrPerFunc, funcIdx
      ensures ok ==> Cut(ksym, len)
      ensures !ok ==> NoCut(jited, ksym, len)
    {
      hide Reach;
      if ksym[0] != jited[0] { return false; }
      funcIdx[0] := 0;
      var prevI: nat, i: nat, f: nat := 0, 1, 1;
      while i < |jited| && f < nrJitedFunc
        invariant Searching(jited, ksym, len, funcIdx[..], f, i) && prevI == funcIdx[f - 1]
        invariant forall g: nat :: g + 1 < f ==> funcIdx[g] + nrPerFunc[g] == funcIdx[g + 1]
        decreases |jited| - i
      {
        if ksym[f] == jited[i] {
          ghost var was := funcIdx[..];
          funcIdx[f] := i;
          if Reach(jited[i - 1], ksym[f - 1]) > len[f - 1] {
            SearchFails(jited, ksym, len, was, f, i);
            return false;
          }
          SearchNext(jited, ksym, len, was, f, i);
          assert funcIdx[..] == was[f := i];
          nrPerFunc[f - 1] := i - prevI;
          prevI := i;
          f := f + 1;
        } else if jited[i] <= jited[i - 1] {
          SearchFails(jited, ksym, len, funcIdx[..], f, i);
          return false;
        }
        i := i + 1;
      }
      if f != nrJitedFunc {
        SearchFails(jited, ksym, len, funcIdx[..], f, i);
        return false;
      }
      SearchEnds(jited, ksym, len, funcIdx[..], i);
      nrPerFunc[nrJitedFunc - 1] := |jited| - prevI;
      ok := true;
    }

    /** bpf_prog_linfo__lfind_addr_func: the last record of the function before
        the first one, from the skipped ones on, that is above the address. */
    method FindAddress(addr: Addr, f: nat, skip: nat, ghost ksym: seq<Addr>, ghost len: seq<Addr>)
      returns (r: Option<nat>)
      requires nrJitedFunc > 0 ==> Cut(ksym, len)
      ensures f >= nrJitedFunc ==> r == None
      ensures f < nrJitedFunc ==> RunEnd(jited, funcIdx[..], f) <= |jited|
      ensures f < nrJitedFunc ==>
        var from, to := funcIdx[f] + skip, RunEnd(jited, funcIdx[..], f);
        && (r == None <==> from >= to || addr < jited[from])
        && (r.Some? ==> from <= r.value < to && (forall j :: from <= j <= r.value ==> jited[j] <= addr))
        && (r.Some? && r.value + 1 < to ==> addr < jited[r.value + 1])
    {
      if f >= nrJitedFunc { return None; }
      FunctionEnds(ksym, len, f);
      var nrLinfo := nrPerFunc[f];
      if skip >= nrLinfo { return None; }
      var start := funcIdx[f] + skip;
      if addr < jited[start] { return None; }
      nrLinfo := nrLinfo - skip;
      var i := 0;
      while i < nrLinfo
        invariant 0 <= i <= nrLinfo
        invariant forall j :: start <= j < start + i ==> jited[j] <= addr
      {
        if addr < jited[start + i] { break; }
        i := i + 1;
      }
      r := Some(start + i - 1);
    }

    lemma FunctionEnds(ksym: seq<Addr>, len: seq<Addr>, f: nat)
      requires Cut(ksym, len) && f < nrJitedFunc
      ensures funcIdx[f] < RunEnd(jited, funcIdx[..], f) <= |jited|
    {
      if f > 0 { assert Begins(jited, ksym, len, funcIdx[..], f); }
      if f + 1 < nrJitedFunc { assert Begins(jited, ksym, len, funcIdx[..], f + 1); }
    }

    /** In every function but the last this is the greatest address not above. */
    lemma FoundIsPredecessor(addr: Addr, f: nat, skip: nat, ksym: seq<Addr>, len: seq<Addr>, r: nat)
      requires Cut(ksym, len) && f + 1 < nrJitedFunc && funcIdx[f] + skip <= r < funcIdx[f + 1] <= |jited|
      requires jited[r] <= addr && (r + 1 < funcIdx[f + 1] ==> addr < jited[r + 1])
      ensures forall j: nat :: funcIdx[f] + skip <= j < funcIdx[f + 1] ==> (jited[j] <= addr <==> j <= r)
    {
      forall j: nat | funcIdx[f] + skip <= j < funcIdx[f + 1] ensures jited[j] <= addr <==> j <= r {
        if j < r { RunIncreases(jited, ksym, len, funcIdx[..], f, j, r); }
        if r + 1 < j { RunIncreases(jited, ksym, len, funcIdx[..], f, r + 1, j); }
      }
    }

    /** bpf_prog_linfo__lfind: the same over instruction offsets. */
    method Find(insnOff: nat, skip: nat) returns (r: Option<nat>)
      ensures r == None <==> skip >= |insnOffs| || insnOff < insnOffs[skip]
      ensures r.Some? ==> skip <= r.value < |insnOffs| && forall j :: skip <= j <= r.value ==> insnOffs[j] <= insnOff
      ensures r.Some? && r.value + 1 < |insnOffs| ==> insnOff < insnOffs[r.value + 1]
    {
      var nrLinfo := |insnOffs|;
      if skip >= nrLinfo { return None; }
      if insnOff < insnOffs[skip] { return None; }
      nrLinfo := nrLinfo - skip;
      var i := 0;
      while i < nrLinfo
        invariant 0 <= i <= nrLinfo
        invariant forall j :: skip <= j < skip + i ==> insnOffs[j] <= insnOff
      {
        if insnOff < insnOffs[skip + i] { break; }
        i := i + 1;
      }
      r := Some(skip + i - 1);
    }
  }

  lemma SearchNext(jited: seq<Addr>, ksym: seq<Addr>, len: seq<Addr>, idx: seq<nat>, f: nat, i: nat)
    requires Searching(jited, ksym, len, idx, f, i) && f < |idx| && i < |jited|
    requires jited[i] == ksym[f] && Reach(jited[i - 1], ksym[f - 1]) <= len[f - 1]
    ensures Searching(jited, ksym, len, idx[f := i], f + 1, i + 1)
  {
    var now := idx[f := i];
    forall g: nat | 1 <= g < f + 1 ensures Begins(jited, ksym, len, now, g) {
      if g < f { assert Begins(jited, ksym, len, idx, g); }
    }
  }
}
