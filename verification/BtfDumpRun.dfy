/** The ordering visit of the C dumper as a function of its inputs, and what it
    says about repetitions in the emit queue. `n` bounds the nesting of calls; a
    visit that ends does so for every larger bound with the same outcome. */
module BtfDumpRun {
  import opened Basics
  import opened BtfTypes

  datatype State = NotOrdered | Ordering | Ordered

  datatype Errno = EInval | ELoop

  /** `Strong` and `Weak` are the results 1 and 0. */
  datatype Link = Strong | Weak | Failed(errno: Errno)

  datatype Out = Out(link: Link, st: seq<State>, q: seq<Id>)

  predicate Named(t: Type) { t.name != 0 }

  predicate IsTypedef(t: Type) { t.body.Ref? && t.body.kind == Typedef }

  predicate IsModifier(t: Type) {
    t.body.Ref? && (t.body.kind == Volatile || t.body.kind == Const || t.body.kind == Restrict)
  }

  /** The types a prototype refers to, the result first. */
  function ProtoTypes(t: Type): (r: seq<Id>)
    requires t.body.FuncProto?
    ensures |r| == 1 + |t.body.params| && r[0] == t.body.ret
    ensures forall i :: 0 <= i < |t.body.params| ==> r[i + 1] == t.body.params[i].ty
  {
    [t.body.ret] + seq(|t.body.params|, i requires 0 <= i < |t.body.params| => t.body.params[i].ty)
  }

  function FieldTypes(t: Type): (r: seq<Id>)
    requires t.body.Composite?
    ensures |r| == |t.body.members|
    ensures forall i :: 0 <= i < |r| ==> r[i] == t.body.members[i].ty
  {
    seq(|t.body.members|, i requires 0 <= i < |t.body.members| => t.body.members[i].ty)
  }

  function Join(a: Link, b: Link): Link {
    if b.Failed? then b else if a == Strong || b == Strong then Strong else Weak
  }

  /** btf_dump_order_type from state `st` and queue `q`. */
  function Visit(n: nat, g: Graph, rf: seq<bool>, st: seq<State>, q: seq<Id>, id: Id, ptr: bool): (r: Option<Out>)
    ensures r.Some? ==> id < |g| && |r.value.st| == |st| == |g|
    decreases n, 0
  {
    if n == 0 || id >= |g| || |st| != |g| || |rf| != |g| then None
    else
      var t := g[id];
      if st[id] == Ordered then Some(Out(Strong, st, q))
      else if st[id] == Ordering then
        if t.body.Composite? && ptr && Named(t) then Some(Out(Weak, st, q)) else Some(Out(Failed(ELoop), st, q))
      else match t.body
        case Int(_, _, _) => Some(Out(Weak, st[id := Ordered], q))
        case Var(_, _, _) => Some(Out(Weak, st[id := Ordered], q))
        case Datasec(_, _) => Some(Out(Weak, st[id := Ordered], q))
        case Ref(Func, _, _) => Some(Out(Weak, st[id := Ordered], q))
        case Ref(Ptr, _, target) =>
          (match Visit(n - 1, g, rf, st, q, target, true)
           case None => None
           case Some(o) => Some(o.(st := o.st[id := Ordered])))
        case Ref(Typedef, _, target) =>
          (match Visit(n - 1, g, rf, st, q, target, ptr)
           case None => None
           case Some(o) =>
             if o.link.Failed? || (ptr && o.link == Weak) then Some(o)
             else Some(Out(Strong, o.st[id := Ordered], o.q + [id])))
        case Ref(_, _, target) => Visit(n - 1, g, rf, st, q, target, ptr)
        case Array(_, _, _, elem, _) => Visit(n - 1, g, rf, st, q, elem, ptr)
        case Composite(_, _, _) =>
          if ptr && Named(t) then Some(Out(Weak, st, q))
          else
            (match VisitAll(n - 1, g, rf, st[id := Ordering], q, FieldTypes(t), false, |FieldTypes(t)|)
             case None => None
             case Some(o) =>
               if o.link.Failed? then Some(o)
               else Some(Out(Strong, o.st[id := Ordered], if Named(t) then o.q + [id] else o.q)))
        case Enum(_, _) => Some(Out(Strong, st[id := Ordered], if Named(t) || !rf[id] then q + [id] else q))
        case Fwd(_, _) => Some(Out(Strong, st[id := Ordered], if Named(t) || !rf[id] then q + [id] else q))
        case FuncProto(_, _) => VisitAll(n - 1, g, rf, st, q, ProtoTypes(t), ptr, |ProtoTypes(t)|)
        case Void => Some(Out(Failed(EInval), st, q))
  }

  /** The first `k` of the types one after the other, until one fails. */
  function VisitAll(n: nat, g: Graph, rf: seq<bool>, st: seq<State>, q: seq<Id>, ids: seq<Id>, ptr: bool,
                    k: nat): (r: Option<Out>)
    requires k <= |ids|
    ensures r.Some? ==> |r.value.st| == |st|
    decreases n, 1, k
  {
    if k == 0 then (if |st| == |g| then Some(Out(Weak, st, q)) else None)
    else
      match VisitAll(n, g, rf, st, q, ids, ptr, k - 1)
      case None => None
      case Some(o) =>
        if o.link.Failed? then Some(o)
        else if n == 0 then None
        else
          match Visit(n - 1, g, rf, o.st, o.q, ids[k - 1], ptr)
          case None => None
          case Some(p) => Some(p.(link := Join(o.link, p.link)))
  }

  /** A larger bound changes nothing. */
  lemma {:induction false} VisitMore(n: nat, m: nat, g: Graph, rf: seq<bool>, st: seq<State>, q: seq<Id>, id: Id,
                                     ptr: bool)
    requires n <= m && Visit(n, g, rf, st, q, id, ptr).Some?
    ensures Visit(m, g, rf, st, q, id, ptr) == Visit(n, g, rf, st, q, id, ptr)
    decreases n, 1
  {
    if st[id] == NotOrdered {
      if g[id].body.Ref? {
        RefMore(n, m, g, rf, st, q, id, ptr);
      } else if g[id].body.Array? {
        VisitMore(n - 1, m - 1, g, rf, st, q, g[id].body.elem, ptr);
      } else if g[id].body.Composite? || g[id].body.FuncProto? {
        ManyMore(n, m, g, rf, st, q, id, ptr);
      }
    }
  }

  lemma {:induction false} RefMore(n: nat, m: nat, g: Graph, rf: seq<bool>, st: seq<State>, q: seq<Id>, id: Id,
                                   ptr: bool)
    requires n <= m && Visit(n, g, rf, st, q, id, ptr).Some? && st[id] == NotOrdered && g[id].body.Ref?
    ensures Visit(m, g, rf, st, q, id, ptr) == Visit(n, g, rf, st, q, id, ptr)
    decreases n, 0
  {
    hide VisitAll;
    var kind, target := g[id].body.kind, g[id].body.target;
    if kind != Func { VisitMore(n - 1, m - 1, g, rf, st, q, target, if kind == Ptr then true else ptr); }
  }

  lemma {:induction false} ManyMore(n: nat, m: nat, g: Graph, rf: seq<bool>, st: seq<State>, q: seq<Id>, id: Id,
                                    ptr: bool)
    requires n <= m && Visit(n, g, rf, st, q, id, ptr).Some? && st[id] == NotOrdered
    requires g[id].body.Composite? || g[id].body.FuncProto?
    ensures Visit(m, g, rf, st, q, id, ptr) == Visit(n, g, rf, st, q, id, ptr)
    decreases n, 0
  {
    hide VisitAll;
    var t := g[id];
    if t.body.FuncProto? {
      VisitAllMore(n - 1, m - 1, g, rf, st, q, ProtoTypes(t), ptr, |ProtoTypes(t)|);
    } else if !(ptr && Named(t)) {
      VisitAllMore(n - 1, m - 1, g, rf, st[id := Ordering], q, FieldTypes(t), false, |FieldTypes(t)|);
    }
  }

  lemma {:induction false} VisitAllMore(n: nat, m: nat, g: Graph, rf: seq<bool>, st: seq<State>, q: seq<Id>,
                                        ids: seq<Id>, ptr: bool, k: nat)
    requires n <= m && k <= |ids| && VisitAll(n, g, rf, st, q, ids, ptr, k).Some?
    ensures VisitAll(m, g, rf, st, q, ids, ptr, k) == VisitAll(n, g, rf, st, q, ids, ptr, k)
    decreases n, 2, k
  {
    if k > 0 {
      VisitAllMore(n, m, g, rf, st, q, ids, ptr, k - 1);
      var o := VisitAll(n, g, rf, st, q, ids, ptr, k - 1).value;
      if !o.link.Failed? { VisitMore(n - 1, m - 1, g, rf, o.st, o.q, ids[k - 1], ptr); }
    }
  }

  ghost predicate Ends(g: Graph, rf: seq<bool>, st: seq<State>, q: seq<Id>, id: Id, ptr: bool, o: Out) {
    exists n: nat :: Visit(n, g, rf, st, q, id, ptr) == Some(o)
  }

  ghost predicate AllEnd(g: Graph, rf: seq<bool>, st: seq<State>, q: seq<Id>, ids: seq<Id>, ptr: bool, k: nat, o: Out) {
    k <= |ids| && exists n: nat :: VisitAll(n, g, rf, st, q, ids, ptr, k) == Some(o)
  }

  lemma AllEndNext(g: Graph, rf: seq<bool>, st: seq<State>, q: seq<Id>, ids: seq<Id>, ptr: bool, k: nat, o: Out, p: Out)
    requires k < |ids| && AllEnd(g, rf, st, q, ids, ptr, k, o) && !o.link.Failed?
    requires Ends(g, rf, o.st, o.q, ids[k], ptr, p)
    ensures AllEnd(g, rf, st, q, ids, ptr, k + 1, p.(link := Join(o.link, p.link)))
  {
    var a: nat :| VisitAll(a, g, rf, st, q, ids, ptr, k) == Some(o);
    var b: nat :| Visit(b, g, rf, o.st, o.q, ids[k], ptr) == Some(p);
    var n := if a < b + 1 then b + 1 else a;
    VisitAllMore(a, n, g, rf, st, q, ids, ptr, k);
    VisitMore(b, n - 1, g, rf, o.st, o.q, ids[k], ptr);
    assert VisitAll(n, g, rf, st, q, ids, ptr, k + 1) == Some(p.(link := Join(o.link, p.link)));
  }

  /** A failure in the middle ends the whole. */
  lemma AllEndFailed(g: Graph, rf: seq<bool>, st: seq<State>, q: seq<Id>, ids: seq<Id>, ptr: bool, k: nat, m: nat,
                     o: Out)
    requires k <= m <= |ids| && AllEnd(g, rf, st, q, ids, ptr, k, o) && o.link.Failed?
    ensures AllEnd(g, rf, st, q, ids, ptr, m, o)
    decreases m
  {
    if k < m {
      AllEndFailed(g, rf, st, q, ids, ptr, k, m - 1, o);
      var n: nat :| VisitAll(n, g, rf, st, q, ids, ptr, m - 1) == Some(o);
      assert VisitAll(n, g, rf, st, q, ids, ptr, m) == Some(o);
    }
  }

  // ----- how the outcome of a visit comes about -----

  /** A visit that goes no further. */
  lemma EndsHere(g: Graph, rf: seq<bool>, st: seq<State>, q: seq<Id>, id: Id, ptr: bool, o: Out)
    requires Visit(1, g, rf, st, q, id, ptr) == Some(o)
    ensures Ends(g, rf, st, q, id, ptr, o)
  {
  }

  lemma EndsPtr(g: Graph, rf: seq<bool>, st: seq<State>, q: seq<Id>, id: Id, ptr: bool, o: Out)
    requires id < |g| == |st| == |rf| && st[id] == NotOrdered && g[id].body.Ref? && g[id].body.kind == Ptr
    requires Ends(g, rf, st, q, g[id].body.target, true, o)
    ensures |o.st| == |g| && Ends(g, rf, st, q, id, ptr, o.(st := o.st[id := Ordered]))
  {
    var n: nat :| Visit(n, g, rf, st, q, g[id].body.target, true) == Some(o);
    assert Visit(n + 1, g, rf, st, q, id, ptr) == Some(o.(st := o.st[id := Ordered]));
  }

  lemma EndsTypedef(g: Graph, rf: seq<bool>, st: seq<State>, q: seq<Id>, id: Id, ptr: bool, o: Out)
    requires id < |g| == |st| == |rf| && st[id] == NotOrdered && IsTypedef(g[id])
    requires Ends(g, rf, st, q, g[id].body.target, ptr, o)
    ensures |o.st| == |g|
    ensures Ends(g, rf, st, q, id, ptr,
                 if o.link.Failed? || (ptr && o.link == Weak) then o else Out(Strong, o.st[id := Ordered], o.q + [id]))
  {
    var n: nat :| Visit(n, g, rf, st, q, g[id].body.target, ptr) == Some(o);
    var p := if o.link.Failed? || (ptr && o.link == Weak) then o else Out(Strong, o.st[id := Ordered], o.q + [id]);
    assert Visit(n + 1, g, rf, st, q, id, ptr) == Some(p);
  }

  lemma EndsSame(g: Graph, rf: seq<bool>, st: seq<State>, q: seq<Id>, id: Id, target: Id, ptr: bool, o: Out)
    requires id < |g| == |st| == |rf| && st[id] == NotOrdered
    requires (IsModifier(g[id]) && target == g[id].body.target) || (g[id].body.Array? && target == g[id].body.elem)
    requires Ends(g, rf, st, q, target, ptr, o)
    ensures Ends(g, rf, st, q, id, ptr, o)
  {
    var n: nat :| Visit(n, g, rf, st, q, target, ptr) == Some(o);
    assert Visit(n + 1, g, rf, st, q, id, ptr) == Some(o);
  }

  lemma EndsStruct(g: Graph, rf: seq<bool>, st: seq<State>, q: seq<Id>, id: Id, ptr: bool, o: Out)
    requires id < |g| == |st| == |rf| && st[id] == NotOrdered && g[id].body.Composite? && !(ptr && Named(g[id]))
    requires AllEnd(g, rf, st[id := Ordering], q, FieldTypes(g[id]), false, |FieldTypes(g[id])|, o)
    ensures |o.st| == |g|
    ensures Ends(g, rf, st, q, id, ptr, if o.link.Failed? then o
                 else Out(Strong, o.st[id := Ordered], if Named(g[id]) then o.q + [id] else o.q))
  {
    var ids := FieldTypes(g[id]);
    var n: nat :| VisitAll(n, g, rf, st[id := Ordering], q, ids, false, |ids|) == Some(o);
    var p := if o.link.Failed? then o
             else Out(Strong, o.st[id := Ordered], if Named(g[id]) then o.q + [id] else o.q);
    assert Visit(n + 1, g, rf, st, q, id, ptr) == Some(p);
  }

  lemma EndsProto(g: Graph, rf: seq<bool>, st: seq<State>, q: seq<Id>, id: Id, ptr: bool, o: Out)
    requires id < |g| == |st| == |rf| && st[id] == NotOrdered && g[id].body.FuncProto?
    requires AllEnd(g, rf, st, q, ProtoTypes(g[id]), ptr, |ProtoTypes(g[id])|, o)
    ensures Ends(g, rf, st, q, id, ptr, o)
  {
    var ids := ProtoTypes(g[id]);
    var n: nat :| VisitAll(n, g, rf, st, q, ids, ptr, |ids|) == Some(o);
    assert Visit(n + 1, g, rf, st, q, id, ptr) == Some(o);
  }

  lemma AllEndNone(g: Graph, rf: seq<bool>, st: seq<State>, q: seq<Id>, ids: seq<Id>, ptr: bool)
    requires |st| == |g|
    ensures AllEnd(g, rf, st, q, ids, ptr, 0, Out(Weak, st, q))
  {
    assert VisitAll(0, g, rf, st, q, ids, ptr, 0) == Some(Out(Weak, st, q));
  }

  /** Two visits that end, end alike. */
  lemma EndsOnce(g: Graph, rf: seq<bool>, st: seq<State>, q: seq<Id>, id: Id, ptr: bool, o: Out, p: Out)
    requires Ends(g, rf, st, q, id, ptr, o) && Ends(g, rf, st, q, id, ptr, p)
    ensures o == p
  {
    var n: nat :| Visit(n, g, rf, st, q, id, ptr) == Some(o);
    var m: nat :| Visit(m, g, rf, st, q, id, ptr) == Some(p);
    if n <= m { VisitMore(n, m, g, rf, st, q, id, ptr); } else { VisitMore(m, n, g, rf, st, q, id, ptr); }
  }
}
