/**
 The scope table of includes/udho/scope.h: aliases tagged with the depth at which they were
 added, all in one flat map, refining a stack of frames without shadowing.
 */
module Scope {
  import opened Numerals

  datatype Declaration = Declaration(ref: string, depth: nat)

  datatype Table = Table(storage: map<string, Declaration>, level: nat)

  type Aliases = map<string, string>

  /* ---- keys ---- */

  predicate IsSeparator(c: char) { c == ':' || c == '.' }

  /** Position of the first ':' or '.', or the length of the key. */
  function Separator(key: string): (i: nat)
    ensures i <= |key|
    ensures forall j | 0 <= j < i :: !IsSeparator(key[j])
    ensures i < |key| ==> IsSeparator(key[i])
  {
    if key == "" || IsSeparator(key[0]) then 0 else 1 + Separator(key[1..])
  }

  function Head(key: string): string { key[..Separator(key)] }
  function Tail(key: string): string { key[Separator(key)..] }

  predicate ValidKey(key: string) { Separator(key) == |key| }

  /** lookup_table::lookup over any way of resolving heads. */
  function Resolve(aliases: Aliases, key: string): string {
    if Head(key) in aliases then aliases[Head(key)] + Tail(key) else key
  }

  /** A new alias, as both the table and a lexical environment make it. */
  function Bind(aliases: Aliases, key: string, ref: string): Aliases {
    if ValidKey(key) && key !in aliases then aliases[key := Resolve(aliases, ref)] else aliases
  }

  /* ---- the table ---- */

  function AliasesOf(storage: map<string, Declaration>): Aliases {
    map k | k in storage :: storage[k].ref
  }

  function AddTo(t: Table, key: string, ref: string): Table {
    if ValidKey(key) && key !in t.storage
    then t.(storage := t.storage[key := Declaration(Resolve(AliasesOf(t.storage), ref), t.level)])
    else t
  }

  function ClearAt(storage: map<string, Declaration>, depth: nat): map<string, Declaration> {
    map k | k in storage && storage[k].depth != depth :: storage[k]
  }

  function Deeper(t: Table): Table { t.(level := t.level + 1) }

  /** up(): std::size_t wraps around at level 0. */
  function Shallower(t: Table): Table {
    Table(ClearAt(t.storage, t.level), if t.level == 0 then SIZE_MAX else t.level - 1)
  }

  /** Every alias belongs to a scope that is still open. */
  ghost predicate Consistent(t: Table) {
    forall k | k in t.storage :: t.storage[k].depth <= t.level
  }

  class LookupTable {
    var storage: map<string, Declaration>
    var level: nat

    constructor ()
      ensures View() == Table(map[], 0) && Consistent(View())
    {
      storage, level := map[], 0;
    }

    function View(): Table
      reads this
    {
      Table(storage, level)
    }

    function Lookup(key: string): string
      reads this
    {
      Resolve(AliasesOf(storage), key)
    }

    method Add(key: string, ref: string) returns (added: bool)
      modifies this`storage
      ensures View() == AddTo(old(View()), key, ref)
      ensures added <==> View() != old(View())
      ensures AliasesOf(storage) == Bind(AliasesOf(old(storage)), key, ref)
    {
      if !ValidKey(key) { return false; }
      if key !in storage {
        var uri := Lookup(ref);
        storage := storage[key := Declaration(uri, level)];
        return true;
      }
      return false;
    }

    method Clear(depth: nat) returns (removed: nat)
      modifies this`storage
      ensures storage == ClearAt(old(storage), depth)
      ensures removed == |set k | k in old(storage) && old(storage)[k].depth == depth|
    {
      removed := |set k | k in storage && storage[k].depth == depth|;
      storage := map k | k in storage && storage[k].depth != depth :: storage[k];
    }

    method Down()
      modifies this`level
      ensures View() == Deeper(old(View()))
    {
      level := level + 1;
    }

    method Up()
      modifies this
      ensures View() == Shallower(old(View()))
    {
      var _ := Clear(level);
      level := if level == 0 then SIZE_MAX else level - 1;
    }
  }

  /* ---- a stack of frames ---- */

  type Frames = seq<Aliases>

  function Frame(t: Table, depth: nat): Aliases {
    map k | k in t.storage && t.storage[k].depth == depth :: t.storage[k].ref
  }

  function FramesOf(t: Table): Frames {
    seq(t.level + 1, d requires 0 <= d <= t.level => Frame(t, d))
  }

  function FrameResolve(fs: Frames, key: string): string
    decreases |fs|
  {
    if fs == [] then key
    else if Head(key) in fs[|fs| - 1] then fs[|fs| - 1][Head(key)] + Tail(key)
    else FrameResolve(fs[..|fs| - 1], key)
  }

  /** A key bound in any frame is not bound again. */
  function FrameAdd(fs: Frames, key: string, ref: string): Frames
    requires fs != []
  {
    if ValidKey(key) && forall f | f in fs :: key !in f
    then fs[|fs| - 1 := fs[|fs| - 1][key := FrameResolve(fs, ref)]]
    else fs
  }

  lemma {:induction false} ResolveInFrames(t: Table, fs: Frames, key: string)
    requires Consistent(t) && fs <= FramesOf(t)
    requires Head(key) in t.storage ==> t.storage[Head(key)].depth < |fs|
    ensures FrameResolve(fs, key) == Resolve(AliasesOf(t.storage), key)
    decreases |fs|
  {
    if fs != [] {
      var n := |fs|;
      assert fs[n - 1] == FramesOf(t)[n - 1] == Frame(t, n - 1);
      if Head(key) !in fs[n - 1] { ResolveInFrames(t, fs[..n - 1], key); }
    }
  }

  datatype Op = Add(key: string, ref: string) | Down | Up

  function Do(t: Table, op: Op): Table {
    match op
    case Add(key, ref) => AddTo(t, key, ref)
    case Down => Deeper(t)
    case Up => Shallower(t)
  }

  function DoAll(t: Table, ops: seq<Op>): Table
    decreases |ops|
  {
    if ops == [] then t else DoAll(Do(t, ops[0]), ops[1..])
  }

  function FrameDo(fs: Frames, op: Op): Frames
    requires fs != []
  {
    match op
    case Add(key, ref) => FrameAdd(fs, key, ref)
    case Down => fs + [map[]]
    case Up => fs[..|fs| - 1]
  }

  /** Never leaves a scope at level 0. */
  predicate Within(ops: seq<Op>, level: nat) {
    if ops == [] then true
    else match ops[0]
      case Add(_, _) => Within(ops[1..], level)
      case Down => Within(ops[1..], level + 1)
      case Up => level > 0 && Within(ops[1..], level - 1)
  }

  /** `ops`, begun inside `entered` scopes, leaves exactly those. */
  predicate Balanced(ops: seq<Op>, entered: nat) {
    if ops == [] then entered == 0
    else match ops[0]
      case Add(_, _) => Balanced(ops[1..], entered)
      case Down => Balanced(ops[1..], entered + 1)
      case Up => entered > 0 && Balanced(ops[1..], entered - 1)
  }

  lemma DoConsistent(t: Table, op: Op)
    requires Consistent(t) && (op.Up? ==> t.level > 0)
    ensures Consistent(Do(t, op))
  {
  }

  lemma FrameOfAdd(t: Table, key: string, ref: string, d: nat)
    requires Consistent(t) && d <= t.level
    ensures Frame(AddTo(t, key, ref), d) == FrameAdd(FramesOf(t), key, ref)[d]
  {
    hide FrameResolve, Resolve, Head, ValidKey;
    var fs := FramesOf(t);
    assert fs <= fs;
    ResolveInFrames(t, fs, ref);
    if key in t.storage {
      var e := t.storage[key].depth;
      assert key in fs[e] && fs[e] in fs;
    } else {
      forall f | f in fs ensures key !in f {
        var e :| 0 <= e < |fs| && fs[e] == f;
        assert f == Frame(t, e);
      }
    }
    assert fs[d] == Frame(t, d);
  }

  /** The flat table refines a stack of frames in which the innermost frame grows and nothing is shadowed. */
  lemma TableRefinesFrames(t: Table, op: Op)
    requires Consistent(t) && (op.Up? ==> t.level > 0)
    ensures FramesOf(Do(t, op)) == FrameDo(FramesOf(t), op)
  {
    var t', fs := Do(t, op), FramesOf(t);
    match op {
      case Add(key, ref) =>
        forall d: nat | d <= t.level ensures FramesOf(t')[d] == FrameDo(fs, op)[d] { FrameOfAdd(t, key, ref, d); }
      case Down =>
        forall d: nat | d <= t.level ensures Frame(t', d) == Frame(t, d) {}
        assert Frame(t', t'.level) == map[];
      case Up =>
        forall d: nat | d <= t'.level ensures Frame(t', d) == Frame(t, d) {}
    }
  }

  function FrameDoAll(fs: Frames, ops: seq<Op>): Frames
    requires fs != [] && Within(ops, |fs| - 1)
    decreases |ops|
  {
    if ops == [] then fs else FrameDoAll(FrameDo(fs, ops[0]), ops[1..])
  }

  /** Over any run from level 0 and up, the table stays consistent and is the frame stack of the same run. */
  lemma {:induction false} RunRefinesFrames(t: Table, ops: seq<Op>)
    requires Consistent(t) && Within(ops, t.level)
    ensures Consistent(DoAll(t, ops)) && FramesOf(DoAll(t, ops)) == FrameDoAll(FramesOf(t), ops)
    decreases |ops|
  {
    if ops != [] {
      TableRefinesFrames(t, ops[0]);
      RunRefinesFrames(Do(t, ops[0]), ops[1..]);
    }
  }

  /* ---- what keys resolve to, without taking them apart ---- */

  /** A name: no ':' and no '.'. */
  predicate Simple(h: string) {
    ':' !in h && '.' !in h
  }

  /** What may follow a name in a key. */
  predicate Member(t: string) {
    t == "" || t[0] == ':' || t[0] == '.'
  }

  lemma {:induction false} SeparatorBehind(h: string, t: string)
    requires Simple(h) && Member(t)
    ensures Separator(h + t) == |h|
  {
    if h == "" {
      assert h + t == t;
    } else {
      assert h[0] in h && (h + t)[0] == h[0] && (h + t)[1..] == h[1..] + t;
      SeparatorBehind(h[1..], t);
    }
  }

  lemma {:induction false} HeadAndTail(h: string, t: string)
    requires Simple(h) && Member(t)
    ensures Head(h + t) == h && Tail(h + t) == t
  {
    SeparatorBehind(h, t);
  }

  /** Every key is a name and what follows it. */
  lemma {:induction false} KeyParts(key: string) returns (h: string, t: string)
    ensures key == h + t && Simple(h) && Member(t)
  {
    h, t := Head(key), Tail(key);
    assert forall c | c in h :: !IsSeparator(c);
  }

  lemma {:induction false} ValidIsPlain(key: string)
    ensures ValidKey(key) <==> Simple(key)
  {
    if ValidKey(key) {
      assert forall c | c in key :: !IsSeparator(c);
    } else {
      assert key[Separator(key)] in key;
    }
  }

  /** A key resolves to the alias of its name with the rest unchanged, or to itself. */
  lemma {:induction false} LookupLaw(aliases: Aliases, h: string, t: string)
    requires Simple(h) && Member(t)
    ensures Resolve(aliases, h + t) == if h in aliases then aliases[h] + t else h + t
  {
    HeadAndTail(h, t);
  }

  /** Exactly a name that is not bound yet is bound, to what its reference resolves to, at the current level. */
  lemma {:induction false} AddLaw(table: Table, key: string, h: string, t: string)
    requires Simple(h) && Member(t)
    ensures var uri := if h in table.storage then table.storage[h].ref + t else h + t;
            AddTo(table, key, h + t) ==
              if ':' in key || '.' in key || key in table.storage then table
              else table.(storage := table.storage[key := Declaration(uri, table.level)])
  {
    ValidIsPlain(key);
    LookupLaw(AliasesOf(table.storage), h, t);
  }

  /** The same of an environment without depths. */
  lemma {:induction false} BindLaw(aliases: Aliases, key: string, h: string, t: string)
    requires Simple(h) && Member(t)
    ensures Bind(aliases, key, h + t) ==
      if ':' in key || '.' in key || key in aliases then aliases
      else aliases[key := if h in aliases then aliases[h] + t else h + t]
  {
    ValidIsPlain(key);
    LookupLaw(aliases, h, t);
  }

  /** In a stack of frames the innermost frame that binds the name decides ... */
  lemma {:induction false} FrameLaw(fs: Frames, h: string, t: string, i: nat)
    requires Simple(h) && Member(t) && i < |fs| && h in fs[i] && forall j | i < j < |fs| :: h !in fs[j]
    ensures FrameResolve(fs, h + t) == fs[i][h] + t
    decreases |fs|
  {
    HeadAndTail(h, t);
    hide Head, Tail;
    if i < |fs| - 1 { FrameLaw(fs[..|fs| - 1], h, t, i); }
  }

  /** ... and if none does, the key stays as it is. */
  lemma {:induction false} FrameLawUnbound(fs: Frames, h: string, t: string)
    requires Simple(h) && Member(t) && forall j | 0 <= j < |fs| :: h !in fs[j]
    ensures FrameResolve(fs, h + t) == h + t
    decreases |fs|
  {
    HeadAndTail(h, t);
    hide Head, Tail;
    if fs != [] { FrameLawUnbound(fs[..|fs| - 1], h, t); }
  }

  /** A name bound in no frame is bound in the innermost one; nothing else changes any frame. */
  lemma {:induction false} FrameAddLaw(fs: Frames, key: string, ref: string)
    requires fs != []
    ensures FrameAdd(fs, key, ref) ==
      if ':' in key || '.' in key || exists f | f in fs :: key in f then fs
      else fs[..|fs| - 1] + [fs[|fs| - 1][key := FrameResolve(fs, ref)]]
  {
    ValidIsPlain(key);
    hide ValidKey, FrameResolve;
    var top := fs[|fs| - 1];
    assert fs[|fs| - 1 := top[key := FrameResolve(fs, ref)]] == fs[..|fs| - 1] + [top[key := FrameResolve(fs, ref)]];
  }

  /** Adding an alias never changes what an already bound head resolves to. */
  lemma AddKeepsResolution(t: Table, key: string, ref: string, q: string)
    requires Head(q) in t.storage
    ensures Resolve(AliasesOf(AddTo(t, key, ref).storage), q) == Resolve(AliasesOf(t.storage), q)
  {
  }

  /** The part of the table that belongs to the scopes up to depth `d`. */
  function UpTo(storage: map<string, Declaration>, d: nat): map<string, Declaration> {
    map k | k in storage && storage[k].depth <= d :: storage[k]
  }

  lemma {:induction false} BalancedKeeps(t: Table, ops: seq<Op>, base: nat, entered: nat)
    requires Consistent(t) && t.level == base + 1 + entered && Balanced(ops, entered)
    ensures var t' := DoAll(t, ops);
            Consistent(t') && t'.level == base + 1 && UpTo(t'.storage, base) == UpTo(t.storage, base)
    decreases |ops|
  {
    if ops != [] {
      DoConsistent(t, ops[0]);
      var t1 := Do(t, ops[0]);
      assert UpTo(t1.storage, base) == UpTo(t.storage, base);
      BalancedKeeps(t1, ops[1..], base,
        match ops[0] case Add(_, _) => entered case Down => entered + 1 case Up => entered - 1);
    }
  }

  /** Whatever is done between entering and leaving a scope, leaving it restores the table exactly. */
  lemma ScopeRestores(t: Table, ops: seq<Op>)
    requires Consistent(t) && Balanced(ops, 0)
    ensures Shallower(DoAll(Deeper(t), ops)) == t
  {
    BalancedKeeps(Deeper(t), ops, t.level, 0);
    var t' := DoAll(Deeper(t), ops);
    assert UpTo(Deeper(t).storage, t.level) == t.storage;
    assert ClearAt(t'.storage, t'.level) == UpTo(t'.storage, t.level);
  }
}
