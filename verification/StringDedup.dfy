/**
  First pass of BTF deduplication: the string section keeps one copy of each
  string that is referenced, and every reference is moved to that copy.
*/
module StringDedup {
  import opened Basics

  // ---------- strings in a section ----------

  /** The bytes from `off` up to the next NUL. */
  function StringAt(s: Bytes, off: nat): Bytes
    decreases |s| - off
  {
    if off >= |s| || s[off] == 0 then [] else [s[off]] + StringAt(s, off + 1)
  }

  /** As btf_parse_str_sec demands: the first string is empty, the last one ends. */
  predicate Section(s: Bytes) {
    |s| > 0 && s[0] == 0 && s[|s| - 1] == 0
  }

  predicate IsStart(s: Bytes, off: nat) {
    off < |s| && (off == 0 || s[off - 1] == 0)
  }

  lemma {:induction false} StringEnds(s: Bytes, off: nat)
    requires off < |s| && s[|s| - 1] == 0
    ensures off + |StringAt(s, off)| < |s| && s[off + |StringAt(s, off)|] == 0
    ensures StringAt(s, off) == s[off..off + |StringAt(s, off)|]
    ensures 0 !in StringAt(s, off)
    decreases |s| - off
  {
    if s[off] != 0 { StringEnds(s, off + 1); }
  }

  /** Where a string may be inside a section that goes on. */
  lemma {:induction false} StringBefore(s: Bytes, t: Bytes, off: nat)
    requires off < |s| && s[|s| - 1] == 0
    ensures StringAt(s + t, off) == StringAt(s, off)
    decreases |s| - off
  {
    if s[off] != 0 { StringBefore(s, t, off + 1); }
  }

  lemma {:induction false} StringBehind(s: Bytes, c: Bytes, k: nat)
    requires 0 !in c && k <= |c|
    ensures StringAt(s + c + [0], |s| + k) == c[k..]
    decreases |c| - k
  {
    if k < |c| {
      assert (s + c + [0])[|s| + k] == c[k] && c[k] in c;
      StringBehind(s, c, k + 1);
    }
  }

  /** Adding one string leaves the others and adds one start. */
  lemma Append(out: Bytes, c: Bytes, off: nat)
    requires 0 !in c && (out != [] ==> out[|out| - 1] == 0)
    ensures var r := out + c + [0];
      r[|r| - 1] == 0 && StringAt(r, |out|) == c &&
      (IsStart(r, off) <==> IsStart(out, off) || off == |out|) &&
      (off < |out| ==> StringAt(r, off) == StringAt(out, off))
  {
    var r := out + c + [0];
    StringBehind(out, c, 0);
    assert r == out + (c + [0]);
    if off < |out| { StringBefore(out, c + [0], off); }
    if |out| < off < |r| {
      assert r[off - 1] == c[off - 1 - |out|] && c[off - 1 - |out|] in c;
    }
  }

  /** strcmp: the order of unsigned bytes, a prefix first. */
  predicate Less(a: Bytes, b: Bytes)
    decreases |a|
  {
    b != [] && (a == [] || a[0] < b[0] || (a[0] == b[0] && Less(a[1..], b[1..])))
  }

  lemma {:induction false} LessTotal(a: Bytes, b: Bytes)
    ensures Less(a, b) || a == b || Less(b, a)
    ensures !(Less(a, b) && Less(b, a)) && !Less(a, a)
    decreases |a|
  {
    if a != [] && b != [] {
      LessTotal(a[1..], b[1..]);
      assert a == [a[0]] + a[1..] && b == [b[0]] + b[1..];
    }
    if a != [] { LessTotal(a[1..], a[1..]); }
  }

  lemma {:induction false} LessTransitive(a: Bytes, b: Bytes, c: Bytes)
    requires Less(a, b) && Less(b, c)
    ensures Less(a, c)
    decreases |a|
  {
    if a != [] && a[0] == b[0] == c[0] { LessTransitive(a[1..], b[1..], c[1..]); }
  }

  // ---------- the index of all strings ----------

  /** One entry of the index: where a string is, whether it is referenced, and
      where it will be. */
  datatype Entry = Entry(off: nat, used: bool, newOff: nat)

  predicate ContentLe(s: Bytes, a: Entry, b: Entry) {
    !Less(StringAt(s, b.off), StringAt(s, a.off))
  }

  predicate OffsetLe(a: Entry, b: Entry) {
    a.off <= b.off
  }

  predicate Le(s: Bytes, byContent: bool, a: Entry, b: Entry) {
    if byContent then ContentLe(s, a, b) else OffsetLe(a, b)
  }

  lemma LeOrder(s: Bytes, byContent: bool, a: Entry, b: Entry, c: Entry)
    ensures Le(s, byContent, a, b) || Le(s, byContent, b, a)
    ensures Le(s, byContent, a, b) && Le(s, byContent, b, c) ==> Le(s, byContent, a, c)
  {
    var x, y, z := StringAt(s, a.off), StringAt(s, b.off), StringAt(s, c.off);
    LessTotal(x, y);
    LessTotal(y, z);
    LessTotal(x, z);
    if Less(x, y) && Less(y, z) { LessTransitive(x, y, z); }
    if Less(z, y) && Less(y, x) { LessTransitive(z, y, x); }
    if Less(z, x) && Less(x, y) { LessTransitive(z, x, y); }
    if Less(y, z) && Less(z, x) { LessTransitive(y, z, x); }
  }

  predicate Sorted(s: Bytes, byContent: bool, es: seq<Entry>) {
    forall i, j :: 0 <= i < j < |es| ==> Le(s, byContent, es[i], es[j])
  }

  /** qsort by content or by offset; how it orders equal entries does not matter. */
  function Insert(s: Bytes, byContent: bool, e: Entry, es: seq<Entry>): seq<Entry> {
    if es == [] then [e]
    else if Le(s, byContent, e, es[0]) then [e] + es
    else [es[0]] + Insert(s, byContent, e, es[1..])
  }

  function Sort(s: Bytes, byContent: bool, es: seq<Entry>): seq<Entry> {
    if es == [] then [] else Insert(s, byContent, es[0], Sort(s, byContent, es[1..]))
  }

  lemma {:induction false} InsertElements(s: Bytes, byContent: bool, e: Entry, es: seq<Entry>)
    ensures multiset(Insert(s, byContent, e, es)) == multiset(es) + multiset{e}
  {
    hide Le;
    if es != [] && !Le(s, byContent, e, es[0]) {
      InsertElements(s, byContent, e, es[1..]);
      assert es == [es[0]] + es[1..];
    }
  }

  lemma PrependSorted(s: Bytes, byContent: bool, e: Entry, es: seq<Entry>)
    requires Sorted(s, byContent, es) && (forall x :: x in es ==> Le(s, byContent, e, x))
    ensures Sorted(s, byContent, [e] + es)
  {
    hide Le;
    var r := [e] + es;
    forall i, j | 0 <= i < j < |r| ensures Le(s, byContent, r[i], r[j]) {
      if i == 0 { assert r[j] in es; } else { assert r[i] == es[i - 1] && r[j] == es[j - 1]; }
    }
  }

  lemma {:induction false} InsertSorted(s: Bytes, byContent: bool, e: Entry, es: seq<Entry>)
    requires Sorted(s, byContent, es)
    ensures Sorted(s, byContent, Insert(s, byContent, e, es))
  {
    hide Le;
    if es == [] {
    } else if Le(s, byContent, e, es[0]) {
      forall x | x in es ensures Le(s, byContent, e, x) {
        LeOrder(s, byContent, e, es[0], x);
        var j :| 0 <= j < |es| && es[j] == x;
      }
      PrependSorted(s, byContent, e, es);
    } else {
      var rest := Insert(s, byContent, e, es[1..]);
      InsertSorted(s, byContent, e, es[1..]);
      InsertElements(s, byContent, e, es[1..]);
      LeOrder(s, byContent, e, es[0], e);
      forall x | x in rest ensures Le(s, byContent, es[0], x) {
        assert x in multiset(rest);
        assert x == e || x in es[1..];
      }
      PrependSorted(s, byContent, es[0], rest);
    }
  }

  lemma {:induction false} SortKeeps(s: Bytes, byContent: bool, es: seq<Entry>)
    ensures multiset(Sort(s, byContent, es)) == multiset(es)
    ensures Sorted(s, byContent, Sort(s, byContent, es))
  {
    if es != [] {
      SortKeeps(s, byContent, es[1..]);
      InsertElements(s, byContent, es[0], Sort(s, byContent, es[1..]));
      InsertSorted(s, byContent, es[0], Sort(s, byContent, es[1..]));
      assert es == [es[0]] + es[1..];
    }
  }

  lemma SortElements(s: Bytes, byContent: bool, es: seq<Entry>)
    ensures Sorted(s, byContent, Sort(s, byContent, es))
    ensures forall e :: e in Sort(s, byContent, es) <==> e in es
  {
    SortKeeps(s, byContent, es);
    assert forall e :: e in Sort(s, byContent, es) <==> e in multiset(Sort(s, byContent, es));
    assert forall e :: e in es <==> e in multiset(es);
  }

  /** Bytes the entries' strings take, NULs included. */
  function Size(s: Bytes, es: seq<Entry>): nat {
    if es == [] then 0 else |StringAt(s, es[0].off)| + 1 + Size(s, es[1..])
  }

  lemma {:induction false} InsertSize(s: Bytes, byContent: bool, e: Entry, es: seq<Entry>)
    ensures Size(s, Insert(s, byContent, e, es)) == |StringAt(s, e.off)| + 1 + Size(s, es)
  {
    if es != [] && !Le(s, byContent, e, es[0]) {
      InsertSize(s, byContent, e, es[1..]);
    } else {
      assert ([e] + es)[1..] == es;
    }
  }

  lemma {:induction false} SortSize(s: Bytes, byContent: bool, es: seq<Entry>)
    ensures Size(s, Sort(s, byContent, es)) == Size(s, es)
  {
    if es != [] {
      SortSize(s, byContent, es[1..]);
      InsertSize(s, byContent, es[0], Sort(s, byContent, es[1..]));
    }
  }

  lemma {:induction false} SizeJoins(s: Bytes, a: seq<Entry>, b: seq<Entry>)
    ensures Size(s, a + b) == Size(s, a) + Size(s, b)
  {
    if a == [] {
      assert a + b == b;
    } else {
      SizeJoins(s, a[1..], b);
      assert (a + b)[1..] == a[1..] + b;
    }
  }

  function Content(s: Bytes, e: Entry): Bytes {
    StringAt(s, e.off)
  }

  /** The entries are the strings before `p`, in order. */
  ghost predicate Indexed(s: Bytes, es: seq<Entry>, p: nat) {
    && (forall j :: 0 <= j < |es| ==> IsStart(s, es[j].off) && es[j].off < p)
    && (forall i, j :: 0 <= i < j < |es| ==> es[i].off < es[j].off)
    && (forall o: nat :: o < p && IsStart(s, o) ==> exists j :: 0 <= j < |es| && es[j].off == o)
  }

  lemma NoStartInside(s: Bytes, p: nat, o: nat)
    requires Section(s) && p < |s| && p <= o <= p + |StringAt(s, p)| && IsStart(s, o)
    ensures o == p
  {
    StringEnds(s, p);
    var c := StringAt(s, p);
    assert forall k :: 0 <= k < |c| ==> c[k] in c && s[p + k] == c[k];
  }

  lemma IndexedNone(s: Bytes)
    requires Section(s)
    ensures IsStart(s, 0) && Indexed(s, [], 0) && Size(s, []) == 0
  {
  }

  lemma IndexedNext(s: Bytes, es: seq<Entry>, p: nat)
    requires Section(s) && Indexed(s, es, p) && IsStart(s, p) && Size(s, es) == p
    ensures var e := Entry(p, false, 0); var q := p + |StringAt(s, p)| + 1;
      Indexed(s, es + [e], q) && q <= |s| && (q < |s| ==> IsStart(s, q)) && Size(s, es + [e]) == q
  {
    var e := Entry(p, false, 0);
    var q := p + |StringAt(s, p)| + 1;
    StringEnds(s, p);
    SizeJoins(s, es, [e]);
    var r := es + [e];
    forall o: nat | o < q && IsStart(s, o) ensures exists j :: 0 <= j < |r| && r[j].off == o {
      if o < p {
        var j :| 0 <= j < |es| && es[j].off == o;
        assert r[j].off == o;
      } else {
        NoStartInside(s, p, o);
        assert r[|es|].off == o;
      }
    }
  }

  // ---------- one copy of each group ----------

  ghost predicate GroupUsed(s: Bytes, es: seq<Entry>, c: Bytes) {
    exists k :: 0 <= k < |es| && es[k].used && Content(s, es[k]) == c
  }

  ghost predicate Placed(s: Bytes, out: Bytes, e: Entry) {
    IsStart(out, e.newOff) && StringAt(out, e.newOff) == Content(s, e)
  }

  ghost predicate AllPlaced(s: Bytes, es: seq<Entry>, g: nat, out: Bytes)
    requires g <= |es|
  {
    forall j :: 0 <= j < g && GroupUsed(s, es, Content(s, es[j])) ==> Placed(s, out, es[j])
  }

  ghost predicate AllUsed(s: Bytes, es: seq<Entry>, g: nat, out: Bytes)
    requires g <= |es|
  {
    forall o: nat :: IsStart(out, o) ==>
      exists k :: 0 <= k < g && es[k].used && Content(s, es[k]) == StringAt(out, o)
  }

  ghost predicate AllDistinct(out: Bytes) {
    forall o: nat, p: nat :: o < p && IsStart(out, o) && IsStart(out, p) ==> StringAt(out, o) != StringAt(out, p)
  }

  /** The new section after the groups among the first `g` entries. */
  ghost predicate Emitted(s: Bytes, es: seq<Entry>, g: nat, out: Bytes)
    requires g <= |es|
  {
    && (out != [] ==> out[|out| - 1] == 0)
    && AllPlaced(s, es, g, out) && AllUsed(s, es, g, out) && AllDistinct(out)
    && |out| <= Size(s, es[..g])
  }

  /** The first `g` entries hold whole groups. */
  ghost predicate Boundary(s: Bytes, es: seq<Entry>, g: nat) {
    forall j, k :: 0 <= j < g <= k < |es| ==> Content(s, es[j]) != Content(s, es[k])
  }

  ghost predicate SameGroup(s: Bytes, es: seq<Entry>, g: nat, i: nat) {
    g < i <= |es| && forall j :: g <= j < i ==> Content(s, es[j]) == Content(s, es[g])
  }

  lemma NextBoundary(s: Bytes, es: seq<Entry>, g: nat, i: nat)
    requires Sorted(s, true, es) && SameGroup(s, es, g, i) && Boundary(s, es, g)
    requires i < |es| ==> Content(s, es[i]) != Content(s, es[g])
    ensures Boundary(s, es, i)
  {
    forall j, k | 0 <= j < i <= k < |es| ensures Content(s, es[j]) != Content(s, es[k]) {
      if g <= j {
        assert Le(s, true, es[g], es[i]);
        assert i < k ==> Le(s, true, es[i], es[k]);
        LessTotal(Content(s, es[g]), Content(s, es[i]));
        LessTotal(Content(s, es[i]), Content(s, es[k]));
      }
    }
  }

  lemma OutsideGroup(s: Bytes, es: seq<Entry>, g: nat, i: nat, k: nat)
    requires SameGroup(s, es, g, i) && Boundary(s, es, g) && Boundary(s, es, i)
    requires k < |es| && Content(s, es[k]) == Content(s, es[g])
    ensures g <= k < i
  {
  }

  lemma EmitNothing(s: Bytes, es: seq<Entry>, g: nat, i: nat, out: Bytes)
    requires SameGroup(s, es, g, i) && Boundary(s, es, g) && Boundary(s, es, i) && Emitted(s, es, g, out)
    requires forall j :: g <= j < i ==> !es[j].used
    ensures Emitted(s, es, i, out)
  {
    forall j | g <= j < i ensures !GroupUsed(s, es, Content(s, es[j])) {
      forall k: nat | k < |es| && Content(s, es[k]) == Content(s, es[j]) ensures !es[k].used {
        OutsideGroup(s, es, g, i, k);
      }
    }
    SizeJoins(s, es[..g], es[g..i]);
    assert es[..i] == es[..g] + es[g..i];
  }

  /** The group's string is appended and its entries learn where it is. */
  ghost predicate GroupMoved(es: seq<Entry>, now: seq<Entry>, g: nat, i: nat, newOff: nat)
    requires g <= i <= |es|
  {
    && |now| == |es|
    && (forall j :: g <= j < i ==> now[j] == es[j].(newOff := newOff))
    && (forall j :: 0 <= j < |es| && !(g <= j < i) ==> now[j] == es[j])
  }

  lemma MovedSame(s: Bytes, es: seq<Entry>, now: seq<Entry>, g: nat, i: nat, newOff: nat)
    requires g <= i <= |es| && GroupMoved(es, now, g, i, newOff)
    ensures Sorted(s, true, es) ==> Sorted(s, true, now)
    ensures forall c :: GroupUsed(s, now, c) <==> GroupUsed(s, es, c)
    ensures Boundary(s, es, i) ==> Boundary(s, now, i)
    ensures forall n: nat :: n <= |es| ==> Size(s, now[..n]) == Size(s, es[..n])
    ensures forall j :: 0 <= j < |es| ==> now[j].off == es[j].off && now[j].used == es[j].used
  {
    assert forall j :: 0 <= j < |es| ==> now[j].off == es[j].off && now[j].used == es[j].used;
    forall c ensures GroupUsed(s, now, c) <==> GroupUsed(s, es, c) {
      if GroupUsed(s, es, c) {
        var k :| 0 <= k < |es| && es[k].used && Content(s, es[k]) == c;
        assert now[k].used && Content(s, now[k]) == c;
      }
      if GroupUsed(s, now, c) {
        var k :| 0 <= k < |es| && now[k].used && Content(s, now[k]) == c;
        assert es[k].used && Content(s, es[k]) == c;
      }
    }
    forall n: nat | n <= |es| ensures Size(s, now[..n]) == Size(s, es[..n]) {
      SameSize(s, es[..n], now[..n]);
    }
    forall i, j | Sorted(s, true, es) && 0 <= i < j < |es| ensures Le(s, true, now[i], now[j]) {
      assert Le(s, true, es[i], es[j]);
    }
  }

  lemma {:induction false} SameSize(s: Bytes, a: seq<Entry>, b: seq<Entry>)
    requires |a| == |b| && forall j :: 0 <= j < |a| ==> a[j].off == b[j].off
    ensures Size(s, a) == Size(s, b)
  {
    if a != [] { SameSize(s, a[1..], b[1..]); }
  }

  /** `r` is `out` with the string `c` behind it. */
  ghost predicate Longer(out: Bytes, c: Bytes, r: Bytes) {
    && IsStart(r, |out|) && StringAt(r, |out|) == c
    && (forall o: nat :: IsStart(r, o) <==> IsStart(out, o) || o == |out|)
    && (forall o: nat :: IsStart(out, o) ==> StringAt(r, o) == StringAt(out, o))
  }

  lemma AppendIsLonger(out: Bytes, c: Bytes)
    requires 0 !in c && (out != [] ==> out[|out| - 1] == 0)
    ensures Longer(out, c, out + c + [0])
  {
    forall o: nat
      ensures IsStart(out + c + [0], o) <==> IsStart(out, o) || o == |out|
      ensures IsStart(out, o) ==> StringAt(out + c + [0], o) == StringAt(out, o)
    {
      Append(out, c, o);
    }
    Append(out, c, |out|);
  }

  lemma UsedStays(s: Bytes, es: seq<Entry>, now: seq<Entry>, g: nat, i: nat, out: Bytes, r: Bytes)
    requires g < i <= |es| && AllUsed(s, es, g, out) && GroupMoved(es, now, g, i, |out|)
    requires Longer(out, Content(s, es[g]), r)
    requires exists j :: g <= j < i && es[j].used && Content(s, es[j]) == Content(s, es[g])
    ensures AllUsed(s, now, i, r)
  {
    hide StringAt, IsStart;
    forall o: nat | IsStart(r, o)
      ensures exists k :: 0 <= k < i && now[k].used && Content(s, now[k]) == StringAt(r, o)
    {
      if IsStart(out, o) {
        var k :| 0 <= k < g && es[k].used && Content(s, es[k]) == StringAt(out, o);
        assert now[k].used && Content(s, now[k]) == StringAt(r, o);
      } else {
        var j :| g <= j < i && es[j].used && Content(s, es[j]) == Content(s, es[g]);
        assert now[j].used && Content(s, now[j]) == StringAt(r, o);
      }
    }
  }

  lemma DistinctStays(s: Bytes, es: seq<Entry>, g: nat, out: Bytes, r: Bytes)
    requires g < |es| && AllUsed(s, es, g, out) && AllDistinct(out) && Boundary(s, es, g)
    requires Longer(out, Content(s, es[g]), r)
    ensures AllDistinct(r)
  {
    hide StringAt;
    forall o: nat, p: nat | o < p && IsStart(r, o) && IsStart(r, p) ensures StringAt(r, o) != StringAt(r, p) {
      if p == |out| {
        var k :| 0 <= k < g && es[k].used && Content(s, es[k]) == StringAt(out, o);
      }
    }
  }

  lemma EmitGroup(s: Bytes, es: seq<Entry>, now: seq<Entry>, g: nat, i: nat, out: Bytes)
    requires Section(s) && SameGroup(s, es, g, i) && Boundary(s, es, g) && Boundary(s, es, i)
    requires Emitted(s, es, g, out) && es[g].off < |s|
    requires exists j :: g <= j < i && es[j].used
    requires GroupMoved(es, now, g, i, |out|)
    ensures Emitted(s, now, i, out + Content(s, es[g]) + [0])
  {
    hide StringAt, IsStart, Longer, Less, AllPlaced, AllUsed, AllDistinct, Size, GroupUsed;
    var c := Content(s, es[g]);
    var r := out + c + [0];
    StringEnds(s, es[g].off);
    AppendIsLonger(out, c);
    UsedStays(s, es, now, g, i, out, r);
    DistinctStays(s, es, g, out, r);
    PlacedStay(s, es, now, g, i, out, r);
    GroupFits(s, es, now, g, i, |out|);
  }

  lemma GroupFits(s: Bytes, es: seq<Entry>, now: seq<Entry>, g: nat, i: nat, newOff: nat)
    requires g < i <= |es| && GroupMoved(es, now, g, i, newOff)
    ensures Size(s, now[..i]) >= Size(s, es[..g]) + |Content(s, es[g])| + 1
  {
    hide StringAt, IsStart, Less, GroupUsed, Sorted, Boundary;
    MovedSame(s, es, now, g, i, newOff);
    SizeJoins(s, es[..g], es[g..i]);
    assert es[..i] == es[..g] + es[g..i] && es[g..i][0] == es[g];
  }

  lemma PlacedStay(s: Bytes, es: seq<Entry>, now: seq<Entry>, g: nat, i: nat, out: Bytes, r: Bytes)
    requires SameGroup(s, es, g, i) && AllPlaced(s, es, g, out) && GroupMoved(es, now, g, i, |out|)
    requires Longer(out, Content(s, es[g]), r)
    ensures AllPlaced(s, now, i, r)
  {
    MovedSame(s, es, now, g, i, |out|);
    hide StringAt, IsStart;
  }

  // ---------- the pass ----------

  ghost predicate HasOffset(es: seq<Entry>, off: nat) {
    exists e :: e in es && e.off == off
  }

  ghost predicate MarkedFor(es: seq<Entry>, offs: seq<nat>) {
    forall e :: e in es ==> (e.used <==> e.off == 0 || e.off in offs)
  }

  /** bsearch by offset. */
  method Find(ghost s: Bytes, es: seq<Entry>, off: nat) returns (k: int)
    requires Sorted(s, false, es)
    ensures 0 <= k ==> k < |es| && es[k].off == off
    ensures k < 0 ==> !HasOffset(es, off)
  {
    var low, high := 0, |es|;
    while low < high
      invariant 0 <= low <= high <= |es|
      invariant forall j :: 0 <= j < low ==> es[j].off < off
      invariant forall j :: high <= j < |es| ==> off < es[j].off
    {
      var mid := (low + high) / 2;
      if es[mid].off < off {
        forall j | 0 <= j < mid ensures es[j].off < off { assert Le(s, false, es[j], es[mid]); }
        low := mid + 1;
      } else if off < es[mid].off {
        forall j | mid < j < |es| ensures off < es[j].off { assert Le(s, false, es[mid], es[j]); }
        high := mid;
      } else {
        return mid;
      }
    }
    return -1;
  }

  /** The index of all strings. */
  method BuildIndex(s: Bytes) returns (es: seq<Entry>)
    requires Section(s)
    ensures Indexed(s, es, |s|) && Size(s, es) == |s|
    ensures forall j :: 0 <= j < |es| ==> !es[j].used
  {
    hide StringAt, IsStart, Indexed, Size, Section;
    es := [];
    var p := 0;
    IndexedNone(s);
    while p < |s|
      invariant p <= |s| && (p < |s| ==> IsStart(s, p))
      invariant Indexed(s, es, p) && Size(s, es) == p
      invariant forall j :: 0 <= j < |es| ==> !es[j].used
    {
      IndexedNext(s, es, p);
      var e := Entry(p, false, 0);
      es := es + [e];
      p := p + |StringAt(s, p)| + 1;
    }
  }

  ghost predicate SameOffsets(es: seq<Entry>, now: seq<Entry>) {
    |es| == |now| && forall j :: 0 <= j < |es| ==> now[j].off == es[j].off
  }

  lemma StartsFound(s: Bytes, es: seq<Entry>, now: seq<Entry>, off: nat)
    requires Section(s) && Indexed(s, es, |s|) && SameOffsets(es, now)
    ensures Sorted(s, false, now)
    ensures IsStart(s, off) <==> HasOffset(now, off)
  {
    if IsStart(s, off) {
      var j :| 0 <= j < |es| && es[j].off == off;
      assert now[j] in now;
    }
    if HasOffset(now, off) {
      var e :| e in now && e.off == off;
      var j :| 0 <= j < |now| && now[j] == e;
    }
  }

  lemma MarkOne(es: seq<Entry>, now: seq<Entry>, offs: seq<nat>, k: nat)
    requires SameOffsets(es, now) && k < |es| && MarkedFor(now, offs)
    requires forall i, j :: 0 <= i < j < |es| ==> es[i].off < es[j].off
    ensures MarkedFor(now[k := now[k].(used := true)], offs + [now[k].off])
    ensures SameOffsets(es, now[k := now[k].(used := true)])
  {
    var r := now[k := now[k].(used := true)];
    forall e | e in r ensures e.used <==> e.off == 0 || e.off in offs + [now[k].off] {
      var j :| 0 <= j < |r| && r[j] == e;
      assert now[j] in now;
    }
  }

  /** btf_str_mark_as_used for every reference: a reference that is not the
      start of a string is an error. */
  method MarkUsed(ghost s: Bytes, es: seq<Entry>, offs: seq<nat>) returns (now: seq<Entry>, ok: bool)
    requires Section(s) && Indexed(s, es, |s|)
    requires forall j :: 0 <= j < |es| ==> !es[j].used
    ensures SameOffsets(es, now)
    ensures ok <==> forall r :: r in offs ==> IsStart(s, r)
    ensures ok ==> MarkedFor(now, offs)
  {
    hide Less, StringAt;
    assert IsStart(s, 0);
    var z :| 0 <= z < |es| && es[z].off == 0;
    now := es[0 := es[0].(used := true)];
    for i := 0 to |offs|
      invariant SameOffsets(es, now)
      invariant forall j :: 0 <= j < i ==> IsStart(s, offs[j])
      invariant MarkedFor(now, offs[..i])
    {
      assert offs[..i + 1] == offs[..i] + [offs[i]] && offs[i] in offs;
      StartsFound(s, es, now, offs[i]);
      if offs[i] != 0 {
        var k := Find(s, now, offs[i]);
        if k < 0 {
          return now, false;
        }
        MarkOne(es, now, offs[..i], k);
        now := now[k := now[k].(used := true)];
      }
    }
    assert offs[..|offs|] == offs;
    ok := true;
  }

  ghost predicate SameMarks(es: seq<Entry>, now: seq<Entry>) {
    |es| == |now| && forall j :: 0 <= j < |es| ==> now[j].off == es[j].off && now[j].used == es[j].used
  }

  /** Section, sorted index, and the empty string at offset 0 among the used. */
  ghost predicate Sortable(s: Bytes, es: seq<Entry>) {
    && Section(s) && Sorted(s, true, es)
    && (forall j :: 0 <= j < |es| ==> es[j].off < |s|)
    && exists j :: 0 <= j < |es| && es[j].off == 0 && es[j].used
  }

  lemma SortableMoved(s: Bytes, es: seq<Entry>, now: seq<Entry>, g: nat, i: nat, newOff: nat)
    requires Sortable(s, es) && g <= i <= |es| && GroupMoved(es, now, g, i, newOff)
    ensures Sortable(s, now) && SameMarks(es, now)
  {
    MovedSame(s, es, now, g, i, newOff);
    var j :| 0 <= j < |es| && es[j].off == 0 && es[j].used;
    assert now[j].off == 0 && now[j].used;
  }

  /** The first group is that of the empty string, and it is used. */
  lemma FirstGroup(s: Bytes, es: seq<Entry>, i: nat)
    requires Sortable(s, es) && SameGroup(s, es, 0, i) && Boundary(s, es, i)
    ensures Content(s, es[0]) == []
    ensures exists j :: 0 <= j < i && es[j].used
  {
    var z :| 0 <= z < |es| && es[z].off == 0 && es[z].used;
    assert Content(s, es[z]) == [];
    if z > 0 {
      assert Le(s, true, es[0], es[z]);
      LessTotal(Content(s, es[0]), []);
    }
    assert Boundary(s, es, 0);
    OutsideGroup(s, es, 0, i, z);
  }

  method SetOffsets(es: seq<Entry>, g: nat, i: nat, newOff: nat) returns (now: seq<Entry>)
    requires g <= i <= |es|
    ensures GroupMoved(es, now, g, i, newOff)
  {
    now := es;
    for j := g to i
      invariant GroupMoved(es, now, g, j, newOff)
    {
      now := now[j := now[j].(newOff := newOff)];
    }
  }

  ghost predicate StartsEmpty(out: Bytes) {
    out != [] && out[0] == 0
  }

  /** The end of the group [g, i): one copy of its string if any of it is used. */
  method CloseGroup(s: Bytes, es: seq<Entry>, g: nat, i: nat, used: bool, out: Bytes)
    returns (now: seq<Entry>, longer: Bytes)
    requires Sortable(s, es) && SameGroup(s, es, g, i) && Boundary(s, es, g)
    requires i < |es| ==> Content(s, es[i]) != Content(s, es[g])
    requires Emitted(s, es, g, out)
    requires used <==> exists j :: g <= j < i && es[j].used
    requires if g == 0 then out == [] else StartsEmpty(out)
    ensures Sortable(s, now) && SameMarks(es, now) && Boundary(s, now, i)
    ensures Emitted(s, now, i, longer) && StartsEmpty(longer)
  {
    hide Less, StringAt, Sorted, Emitted;
    NextBoundary(s, es, g, i);
    if g == 0 { FirstGroup(s, es, i); }
    if used {
      now := SetOffsets(es, g, i, |out|);
      longer := out + StringAt(s, es[g].off) + [0];
      EmitGroup(s, es, now, g, i, out);
      MovedSame(s, es, now, g, i, |out|);
      SortableMoved(s, es, now, g, i, |out|);
    } else {
      now, longer := es, out;
      EmitNothing(s, es, g, i, out);
    }
  }

  /** One copy of each string that is used, in the order of the contents. */
  method EmitGroups(s: Bytes, es: seq<Entry>) returns (now: seq<Entry>, out: Bytes)
    requires Sortable(s, es)
    ensures SameMarks(es, now)
    ensures Emitted(s, now, |now|, out) && StartsEmpty(out)
  {
    hide Less, StringAt, Sorted, Emitted, Sortable;
    NotEmpty(s, es);
    now, out := es, [];
    var g, i := 0, 1;
    var used := es[0].used;
    while i <= |es|
      invariant 1 <= i <= |es| + 1
      invariant Sortable(s, now) && SameMarks(es, now)
      invariant i <= |es| ==> SameGroup(s, now, g, i) && Boundary(s, now, g) && Emitted(s, now, g, out)
      invariant i <= |es| ==> if g == 0 then out == [] else StartsEmpty(out)
      invariant used <==> exists j :: g <= j < i && j < |now| && now[j].used
      invariant i == |es| + 1 ==> Emitted(s, now, |now|, out) && StartsEmpty(out)
    {
      if i < |es| && StringAt(s, now[i].off) == StringAt(s, now[g].off) {
        used := used || now[i].used;
      } else {
        now, out := CloseGroup(s, now, g, i, used, out);
        if i < |es| {
          g := i;
          used := now[i].used;
        }
      }
      i := i + 1;
    }
  }

  lemma NotEmpty(s: Bytes, es: seq<Entry>)
    requires Sortable(s, es)
    ensures es != [] && Emitted(s, es, 0, [])
  {
  }

  // ---------- what the pass achieves ----------

  /** The references read what they read before, from a section that holds each
      string once, none unreferenced but the empty one, and is no longer. */
  ghost predicate StringsDeduplicated(s: Bytes, offs: seq<nat>, out: Bytes, now: seq<nat>) {
    && Section(out) && |out| <= |s| && |now| == |offs|
    && (forall i :: 0 <= i < |offs| ==> IsStart(out, now[i]) && StringAt(out, now[i]) == StringAt(s, offs[i]))
    && AllDistinct(out)
    && (forall o: nat :: IsStart(out, o) ==> o == 0 || o in now)
  }

  /** Afterwards two references are equal numbers exactly if they name equal strings. */
  lemma EqualNamesEqualOffsets(s: Bytes, offs: seq<nat>, out: Bytes, now: seq<nat>, i: nat, j: nat)
    requires StringsDeduplicated(s, offs, out, now) && i < |offs| && j < |offs|
    ensures now[i] == now[j] <==> StringAt(s, offs[i]) == StringAt(s, offs[j])
  {
    if now[i] < now[j] {
      assert IsStart(out, now[i]) && IsStart(out, now[j]);
    } else if now[j] < now[i] {
      assert IsStart(out, now[j]) && IsStart(out, now[i]);
    }
  }

  /** What the references may be looked up in: every referenced string placed. */
  ghost predicate Lookup(s: Bytes, offs: seq<nat>, out: Bytes, es: seq<Entry>) {
    && Section(s) && Section(out) && |out| <= |s| && AllDistinct(out)
    && (forall r :: r in offs ==> HasOffset(es, r))
    && (forall e :: e in es && (e.off == 0 || e.off in offs) ==> Placed(s, out, e))
    && (forall o: nat :: IsStart(out, o) ==>
          exists e :: e in es && (e.off == 0 || e.off in offs) && Content(s, e) == StringAt(out, o))
  }

  lemma EmittedLookup(s: Bytes, offs: seq<nat>, es: seq<Entry>, out: Bytes)
    requires Section(s) && Emitted(s, es, |es|, out) && StartsEmpty(out) && MarkedFor(es, offs)
    requires Size(s, es) == |s| && forall r :: r in offs ==> HasOffset(es, r)
    ensures Lookup(s, offs, out, es)
  {
    assert es[..|es|] == es;
    forall e | e in es && (e.off == 0 || e.off in offs) ensures Placed(s, out, e) {
      var j :| 0 <= j < |es| && es[j] == e;
      assert GroupUsed(s, es, Content(s, es[j]));
    }
    forall o: nat | IsStart(out, o)
      ensures exists e :: e in es && (e.off == 0 || e.off in offs) && Content(s, e) == StringAt(out, o)
    {
      var k :| 0 <= k < |es| && es[k].used && Content(s, es[k]) == StringAt(out, o);
      assert es[k] in es;
    }
  }

  lemma LookupSorted(s: Bytes, offs: seq<nat>, out: Bytes, es: seq<Entry>)
    requires Lookup(s, offs, out, es)
    ensures Lookup(s, offs, out, Sort(s, false, es)) && Sorted(s, false, Sort(s, false, es))
  {
    var r := Sort(s, false, es);
    hide Less, StringAt, Sorted, Sort;
    SortElements(s, false, es);
    forall x | x in offs ensures HasOffset(r, x) {
      var e :| e in es && e.off == x;
      assert e in r;
    }
    forall o: nat | IsStart(out, o)
      ensures exists e :: e in r && (e.off == 0 || e.off in offs) && Content(s, e) == StringAt(out, o)
    {
      var e :| e in es && (e.off == 0 || e.off in offs) && Content(s, e) == StringAt(out, o);
      assert e in r;
    }
  }

  /** The offset a reference gets. */
  ghost predicate Looked(s: Bytes, out: Bytes, off: nat, newOff: nat) {
    IsStart(out, newOff) && StringAt(out, newOff) == StringAt(s, off) && (off == 0 ==> newOff == 0)
  }

  lemma ZeroStays(s: Bytes, out: Bytes)
    requires Section(s) && Section(out)
    ensures Looked(s, out, 0, 0)
  {
  }

  lemma SectionsOf(s: Bytes, offs: seq<nat>, out: Bytes, es: seq<Entry>)
    requires Lookup(s, offs, out, es)
    ensures Section(s) && Section(out)
  {
  }

  lemma AllLooked(s: Bytes, offs: seq<nat>, out: Bytes, es: seq<Entry>, now: seq<nat>)
    requires Lookup(s, offs, out, es) && |now| == |offs|
    requires forall i :: 0 <= i < |offs| ==> Looked(s, out, offs[i], now[i])
    ensures StringsDeduplicated(s, offs, out, now)
  {
    assert StringAt(s, 0) == [] == StringAt(out, 0);
    hide StringAt;
    forall o: nat | IsStart(out, o) ensures o == 0 || o in now {
      var e :| e in es && (e.off == 0 || e.off in offs) && Content(s, e) == StringAt(out, o);
      if e.off == 0 {
        assert IsStart(out, 0);
      } else {
        var i :| 0 <= i < |offs| && offs[i] == e.off;
        assert Looked(s, out, offs[i], now[i]);
        assert now[i] == o;
      }
    }
  }

  lemma LookedUp(s: Bytes, offs: seq<nat>, out: Bytes, es: seq<Entry>, i: nat, k: int)
    requires Lookup(s, offs, out, es) && i < |offs| && offs[i] != 0
    requires 0 <= k ==> k < |es| && es[k].off == offs[i]
    requires k < 0 ==> !HasOffset(es, offs[i])
    ensures 0 <= k < |es| && Looked(s, out, offs[i], es[k].newOff)
  {
    assert offs[i] in offs;
    if 0 <= k { assert es[k] in es; }
  }

  lemma SortedIndex(s: Bytes, es: seq<Entry>, marked: seq<Entry>, offs: seq<nat>)
    requires Section(s) && Indexed(s, es, |s|) && Size(s, es) == |s|
    requires SameOffsets(es, marked) && MarkedFor(marked, offs)
    ensures Sortable(s, Sort(s, true, marked)) && MarkedFor(Sort(s, true, marked), offs)
    ensures Size(s, Sort(s, true, marked)) == |s|
    ensures forall r: nat :: IsStart(s, r) ==> HasOffset(Sort(s, true, marked), r)
  {
    var r := Sort(s, true, marked);
    hide Less, StringAt, Sorted, Sort, Size;
    SortElements(s, true, marked);
    SortSize(s, true, marked);
    SameSize(s, es, marked);
    forall x: nat | IsStart(s, x) ensures HasOffset(r, x) {
      StartsFound(s, es, marked, x);
      var e :| e in marked && e.off == x;
      assert e in r;
    }
    assert IsStart(s, 0);
    var e :| e in r && e.off == 0;
    var z :| 0 <= z < |r| && r[z] == e;
    forall j | 0 <= j < |r| ensures r[j].off < |s| {
      assert r[j] in r;
      var i :| 0 <= i < |marked| && marked[i] == r[j];
    }
  }

  lemma AfterEmission(s: Bytes, offs: seq<nat>, sorted: seq<Entry>, placed: seq<Entry>, out: Bytes)
    requires Section(s) && Size(s, sorted) == |s| && MarkedFor(sorted, offs) && SameMarks(sorted, placed)
    requires forall r :: r in offs ==> IsStart(s, r)
    requires forall r: nat :: IsStart(s, r) ==> HasOffset(sorted, r)
    requires Emitted(s, placed, |placed|, out) && StartsEmpty(out)
    ensures Lookup(s, offs, out, placed)
  {
    SameSize(s, sorted, placed);
    forall e | e in placed ensures e.used <==> e.off == 0 || e.off in offs {
      var j :| 0 <= j < |placed| && placed[j] == e;
      assert sorted[j] in sorted;
    }
    forall r | r in offs ensures HasOffset(placed, r) {
      assert HasOffset(sorted, r);
      var e :| e in sorted && e.off == r;
      var j :| 0 <= j < |sorted| && sorted[j] == e;
      assert placed[j] in placed;
    }
    EmittedLookup(s, offs, placed, out);
  }

  /** The string section and the places that refer into it, in the order in
      which btf_for_each_str_off visits them. */
  class StringTable {
    var strings: Bytes
    var refs: seq<nat>

    constructor (strings: Bytes, refs: seq<nat>)
      ensures this.strings == strings && this.refs == refs
    {
      this.strings := strings;
      this.refs := refs;
    }

    /** btf_dedup_strings: an error, and no change, exactly if some reference is
        not the start of a string. */
    method DedupStrings() returns (ok: bool)
      requires Section(strings)
      modifies this
      ensures ok <==> forall r :: r in old(refs) ==> IsStart(old(strings), r)
      ensures !ok ==> strings == old(strings) && refs == old(refs)
      ensures ok ==> StringsDeduplicated(old(strings), old(refs), strings, refs)
    {
      hide Less, StringAt, Sorted, Emitted, Lookup;
      var s := strings;
      ghost var offs := refs;
      var es := BuildIndex(strings);
      var marked: seq<Entry>;
      marked, ok := MarkUsed(strings, es, refs);
      if !ok { return; }
      var sorted := Sort(strings, true, marked);
      SortedIndex(strings, es, marked, refs);
      var placed, out := EmitGroups(strings, sorted);
      AfterEmission(strings, refs, sorted, placed, out);
      strings := out;
      var byOffset := Sort(s, false, placed);
      LookupSorted(s, offs, out, placed);
      RemapRefs(s, byOffset);
    }

    /** btf_str_remap_offset for every reference. */
    method RemapRefs(ghost s: Bytes, byOffset: seq<Entry>)
      requires Lookup(s, refs, strings, byOffset) && Sorted(s, false, byOffset)
      modifies this`refs
      ensures StringsDeduplicated(s, old(refs), strings, refs)
    {
      hide Less, StringAt, Sorted, Lookup, IsStart, Section, Looked, StringsDeduplicated;
      ghost var offs, out := refs, strings;
      SectionsOf(s, offs, out, byOffset);
      var i := 0;
      while i < |refs|
        invariant i <= |refs| == |offs| && strings == out
        invariant forall j :: 0 <= j < i ==> Looked(s, out, offs[j], refs[j])
        invariant forall j :: i <= j < |refs| ==> refs[j] == offs[j]
      {
        if refs[i] != 0 {
          var k := Find(s, byOffset, refs[i]);
          LookedUp(s, offs, out, byOffset, i, k);
          refs := refs[i := byOffset[k].newOff];
        } else {
          ZeroStays(s, out);
        }
        i := i + 1;
      }
      AllLooked(s, offs, out, byOffset, refs);
    }
  }
}
