/** The worker-message handler registry of the pikchr fiddle: a map from message type to the
    ordered list of handlers registered for it. These are the specification functions the
    registry methods of `PikchrFiddle` are proved against, and what they promise. */
module MsgRegistry {

  /** The first argument of `addMsgHandler`: one message type, or an array whose elements are
      registered one after another (elements may themselves be arrays). */
  datatype MsgType = Name(name: string) | Names(types: seq<MsgType>)

  /** The list registered for `t`; an absent type has none. */
  function HandlersOf<H>(m: map<string, seq<H>>, t: string): (hs: seq<H>)
    ensures t !in m ==> hs == []
  {
    if t in m then m[t] else []
  }

  /** `cb` pushed onto the list of `t`, which is created when absent. */
  function Pushed<H>(m: map<string, seq<H>>, t: string, cb: H): (m': map<string, seq<H>>)
  {
    m[t := HandlersOf(m, t) + [cb]]
  }

  /** Pushing onto an absent type creates a list holding just `cb`. */
  lemma PushedFresh<H>(m: map<string, seq<H>>, t: string, cb: H)
    requires t !in m
    ensures Pushed(m, t, cb) == m[t := [cb]]
  {
    assert HandlersOf(m, t) + [cb] == [cb];
  }

  /** `m` after `addMsgHandler(mt, cb)`. */
  function Registered<H>(m: map<string, seq<H>>, mt: MsgType, cb: H): map<string, seq<H>>
    decreases mt, if mt.Names? then |mt.types| + 1 else 0
  {
    match mt
    case Name(t) => Pushed(m, t, cb)
    case Names(ts) => RegisteredFirst(m, mt, |ts|, cb)
  }

  /** `m` after the first `k` elements of the array `mt` have been registered in order. */
  function RegisteredFirst<H>(m: map<string, seq<H>>, mt: MsgType, k: nat, cb: H): map<string, seq<H>>
    requires mt.Names? && k <= |mt.types|
    decreases mt, k
  {
    if k == 0 then m
    else Registered(RegisteredFirst(m, mt, k - 1, cb), mt.types[k - 1], cb)
  }

  /** How many times the type name `u` occurs in `mt`, nested arrays included. */
  function Occurs(mt: MsgType, u: string): nat
    decreases mt, if mt.Names? then |mt.types| + 1 else 0
  {
    match mt
    case Name(t) => if t == u then 1 else 0
    case Names(ts) => OccursFirst(mt, |ts|, u)
  }

  function OccursFirst(mt: MsgType, k: nat, u: string): nat
    requires mt.Names? && k <= |mt.types|
    decreases mt, k
  {
    if k == 0 then 0 else OccursFirst(mt, k - 1, u) + Occurs(mt.types[k - 1], u)
  }

  /** `n` copies of `x`. */
  function Repeat<H>(x: H, n: nat): (r: seq<H>)
    ensures |r| == n && forall i :: 0 <= i < n ==> r[i] == x
  {
    if n == 0 then [] else Repeat(x, n - 1) + [x]
  }

  lemma AppendRepeats<H>(h: seq<H>, x: H, a: nat, b: nat)
    ensures (h + Repeat(x, a)) + Repeat(x, b) == h + Repeat(x, a + b)
  {
    RepeatAdd(x, a, b);
  }

  lemma RepeatAdd<H>(x: H, a: nat, b: nat)
    ensures Repeat(x, a) + Repeat(x, b) == Repeat(x, a + b)
  {
  }

  /** Pushing appends `cb` to the end of the list of `t` whether or not it is already there,
      creates that list when absent, and changes no other type's list. */
  lemma PushedHandlers<H>(m: map<string, seq<H>>, t: string, cb: H, u: string)
    ensures HandlersOf(Pushed(m, t, cb), u) ==
      if u == t then HandlersOf(m, t) + [cb] else HandlersOf(m, u)
    ensures u in Pushed(m, t, cb) <==> u in m || u == t
  {
  }

  /** Registering under `mt` adds `cb` once at the end of each list, once per occurrence of
      that type's name in `mt`; the types that now have a list are those that had one and
      those named in `mt`. */
  lemma {:induction false} RegisteredHandlers<H>(m: map<string, seq<H>>, mt: MsgType, cb: H, u: string)
    ensures HandlersOf(Registered(m, mt, cb), u) == HandlersOf(m, u) + Repeat(cb, Occurs(mt, u))
    ensures u in Registered(m, mt, cb) <==> u in m || Occurs(mt, u) > 0
    decreases mt, if mt.Names? then |mt.types| + 1 else 0
  {
    match mt
    case Name(t) =>
      PushedHandlers(m, t, cb, u);
      assert Repeat(cb, 0) == [];
    case Names(ts) =>
      RegisteredFirstHandlers(m, mt, |ts|, cb, u);
  }

  lemma {:induction false} RegisteredFirstHandlers<H>(m: map<string, seq<H>>, mt: MsgType, k: nat, cb: H, u: string)
    requires mt.Names? && k <= |mt.types|
    ensures HandlersOf(RegisteredFirst(m, mt, k, cb), u) == HandlersOf(m, u) + Repeat(cb, OccursFirst(mt, k, u))
    ensures u in RegisteredFirst(m, mt, k, cb) <==> u in m || OccursFirst(mt, k, u) > 0
    decreases mt, k
  {
    if k == 0 {
      assert HandlersOf(m, u) + [] == HandlersOf(m, u);
    } else {
      var before := RegisteredFirst(m, mt, k - 1, cb);
      var after := Registered(before, mt.types[k - 1], cb);
      assert RegisteredFirst(m, mt, k, cb) == after;
      var p, q := OccursFirst(mt, k - 1, u), Occurs(mt.types[k - 1], u);
      assert OccursFirst(mt, k, u) == p + q;
      RegisteredFirstHandlers(m, mt, k - 1, cb, u);
      RegisteredHandlers(before, mt.types[k - 1], cb, u);
      AppendRepeats(HandlersOf(m, u), cb, p, q);
    }
  }

  /** Registering the first `k` elements of an array does not depend on the elements after them. */
  lemma {:induction false} RegisteredFirstPrefix<H>(m: map<string, seq<H>>, ts: seq<MsgType>, t: MsgType, k: nat, cb: H)
    requires k <= |ts|
    ensures RegisteredFirst(m, Names(ts + [t]), k, cb) == RegisteredFirst(m, Names(ts), k, cb)
  {
    if k > 0 {
      RegisteredFirstPrefix(m, ts, t, k - 1, cb);
      assert (ts + [t])[k - 1] == ts[k - 1];
    }
  }

  /** Registering under an array is registering under each of its elements in array order: one
      more element registers that element after all the earlier ones. */
  lemma RegisteredInOrder<H>(m: map<string, seq<H>>, ts: seq<MsgType>, t: MsgType, cb: H)
    ensures Registered(m, Names(ts + [t]), cb) == Registered(Registered(m, Names(ts), cb), t, cb)
  {
    RegisteredFirstPrefix(m, ts, t, |ts|, cb);
    assert (ts + [t])[|ts|] == t;
  }

  /** `m` after `clearMsgHandlers(t)`. */
  function Cleared<H>(m: map<string, seq<H>>, t: string): (m': map<string, seq<H>>)
  {
    m - {t}
  }

  /** After clearing, `t` has no entry and so dispatches like a type never registered, while
      every other type keeps its list. */
  lemma ClearedForgets<H>(m: map<string, seq<H>>, t: string, u: string)
    ensures t !in Cleared(m, t) && HandlersOf(Cleared(m, t), t) == []
    ensures u != t ==> (u in Cleared(m, t) <==> u in m) && HandlersOf(Cleared(m, t), u) == HandlersOf(m, u)
  {
  }

  /** Every registered type has at least one handler: lists are only ever created by a push. */
  ghost predicate NoEmptyLists<H>(m: map<string, seq<H>>)
  {
    forall t :: t in m ==> m[t] != []
  }

  lemma {:induction false} RegisteredKeepsNoEmptyLists<H>(m: map<string, seq<H>>, mt: MsgType, cb: H)
    requires NoEmptyLists(m)
    ensures NoEmptyLists(Registered(m, mt, cb))
  {
    forall u | u in Registered(m, mt, cb) ensures Registered(m, mt, cb)[u] != [] {
      RegisteredHandlers(m, mt, cb, u);
      if u !in m {
        assert |Repeat(cb, Occurs(mt, u))| > 0;
      } else {
        assert m[u] != [];
      }
    }
  }
}
