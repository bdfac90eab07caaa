/** The context-map parser (src/lib/skills/contextMapParser.ts): validates a
    loaded `context-map.yaml` document and orders its contexts so that every
    context comes after the contexts it depends on. */
module ContextMap {
  import opened Wrappers
  import opened Seqs

  /** A loaded YAML value. A mapping keeps its keys in the order
      `Object.keys` reports them. */
  datatype Yaml =
    | YNull
    | YBool(b: bool)
    | YNum(n: real)
    | YStr(s: string)
    | YList(items: seq<Yaml>)
    | YMap(entries: seq<(string, Yaml)>)

  /** JavaScript truthiness of a loaded value. */
  predicate Truthy(y: Yaml) {
    match y
    case YNull => false
    case YBool(b) => b
    case YNum(n) => n != 0.0
    case YStr(s) => s != ""
    case _ => true
  }

  /** `typeof y === "object"` for a value that is not null. */
  predicate IsObject(y: Yaml) {
    y.YList? || y.YMap?
  }

  /** The value stored under `key`. */
  function Lookup(entries: seq<(string, Yaml)>, key: string): (r: Option<Yaml>)
    ensures r.None? <==> forall i :: 0 <= i < |entries| ==> entries[i].0 != key
    ensures r.Some? ==> (key, r.value) in entries
    decreases |entries|
  {
    if |entries| == 0 then None
    else if entries[0].0 == key then Some(entries[0].1)
    else
      var r := Lookup(entries[1..], key);
      assert forall i :: 1 <= i < |entries| ==> entries[i] == entries[1..][i - 1];
      r
  }

  /** Looking up in two runs of entries: the first run wins. */
  lemma {:induction false} LookupAppend(a: seq<(string, Yaml)>, b: seq<(string, Yaml)>, key: string)
    ensures Lookup(a + b, key) == if Lookup(a, key).Some? then Lookup(a, key) else Lookup(b, key)
    decreases |a|
  {
    if |a| > 0 {
      assert (a + b)[1..] == a[1..] + b;
      LookupAppend(a[1..], b, key);
    } else {
      assert a + b == b;
    }
  }

  /** A property of an object; a list or a scalar has none. */
  function Field(y: Yaml, name: string): Option<Yaml> {
    if y.YMap? then Lookup(y.entries, name) else None
  }

  /** The strings among a list's items, in order. */
  function StringItems(items: seq<Yaml>): (r: seq<string>)
    ensures |r| <= |items|
    ensures forall i :: 0 <= i < |r| ==> YStr(r[i]) in items
    decreases |items|
  {
    if |items| == 0 then []
    else
      var init := StringItems(items[..|items| - 1]);
      assert forall i :: 0 <= i < |init| ==> YStr(init[i]) in items[..|items| - 1];
      match items[|items| - 1]
      case YStr(s) => init + [s]
      case _ => init
  }

  /** Every string item is kept. */
  lemma {:induction false} StringItemsComplete(items: seq<Yaml>, j: nat)
    requires j < |items| && items[j].YStr?
    ensures items[j].s in StringItems(items)
    decreases |items|
  {
    if j < |items| - 1 {
      assert items[..|items| - 1][j] == items[j];
      StringItemsComplete(items[..|items| - 1], j);
    }
  }

  /** A list of strings gives back its strings. */
  lemma {:induction false} StringItemsOfStrings(items: seq<Yaml>, strs: seq<string>)
    requires |items| == |strs| && forall i :: 0 <= i < |items| ==> items[i] == YStr(strs[i])
    ensures StringItems(items) == strs
    decreases |items|
  {
    if |items| > 0 {
      var n := |items| - 1;
      StringItemsOfStrings(items[..n], strs[..n]);
      assert strs == strs[..n] + [strs[n]];
    }
  }

  /** `toStringArray`: the string items of a list; nothing for any other value. */
  function ToStringArray(v: Option<Yaml>): seq<string> {
    match v
    case Some(YList(items)) => StringItems(items)
    case _ => []
  }

  datatype ContextMapContext = ContextMapContext(
    key: string,
    labelText: string,
    permanent: seq<string>,
    stable: seq<string>,
    working: seq<string>,
    optionalStable: seq<string>,
    dependsOn: seq<string>,
    output: Option<string>)

  datatype ContextMapError =
    | InvalidYaml
    | MissingContexts
    | ContextsNotObject
    | NoContexts
    | ContextNotObject(key: string)
    | MissingLabel(key: string)
    | UnknownDependency(key: string, dep: string)
    | FileNotFound(path: string)
    | CircularDependency(key: string)

  /** The contexts, as the `contexts` mapping lists them. */
  type Contexts = seq<(string, Yaml)>

  /** `!raw.contexts[dep]` is false: `dep` names a context with a truthy value. */
  predicate IsKnown(contexts: Contexts, dep: string) {
    Lookup(contexts, dep).Some? && Truthy(Lookup(contexts, dep).value)
  }

  /** The first dependency that names no context. */
  function FirstUnknown(contexts: Contexts, deps: seq<string>): (r: Option<string>)
    ensures r.None? <==> forall i :: 0 <= i < |deps| ==> IsKnown(contexts, deps[i])
    ensures r.Some? ==> r.value in deps && !IsKnown(contexts, r.value)
    decreases |deps|
  {
    if |deps| == 0 then None
    else if !IsKnown(contexts, deps[0]) then Some(deps[0])
    else
      assert forall i :: 1 <= i < |deps| ==> deps[i] == deps[1..][i - 1];
      FirstUnknown(contexts, deps[1..])
  }

  function Label(ctx: Yaml): Option<string> {
    match Field(ctx, "label")
    case Some(YStr(l)) => if l != "" then Some(l) else None
    case _ => None
  }

  function Deps(ctx: Yaml): seq<string> {
    ToStringArray(Field(ctx, "depends_on"))
  }

  /** Every file a context names, zone by zone. */
  function ContextFiles(ctx: Yaml): seq<string> {
    ToStringArray(Field(ctx, "permanent")) + ToStringArray(Field(ctx, "stable"))
      + ToStringArray(Field(ctx, "working")) + ToStringArray(Field(ctx, "optional_stable"))
  }

  /** A context that passes the checks. */
  predicate ValidContext(contexts: Contexts, ctx: Yaml) {
    IsObject(ctx) && Label(ctx).Some? && forall d :: d in Deps(ctx) ==> IsKnown(contexts, d)
  }

  /** One context's checks, in the source's order: it is an object, it has a
      non-empty string label, and each dependency names a context. On success,
      the files it names. */
  function CheckContext(contexts: Contexts, key: string, ctx: Yaml): (r: Result<seq<string>, ContextMapError>)
    ensures r.Success? <==> ValidContext(contexts, ctx)
    ensures r.Success? ==> r.value == ContextFiles(ctx)
    ensures r.Failure? ==> r.error in {ContextNotObject(key), MissingLabel(key)} || r.error.UnknownDependency?
  {
    if !Truthy(ctx) || !IsObject(ctx) then Failure(ContextNotObject(key))
    else if Label(ctx).None? then Failure(MissingLabel(key))
    else
      match FirstUnknown(contexts, Deps(ctx))
      case Some(d) => Failure(UnknownDependency(key, d))
      case None => Success(ContextFiles(ctx))
  }

  /** Every context from index `i` on passes the checks. */
  predicate AllValidFrom(contexts: Contexts, i: nat) {
    forall j :: i <= j < |contexts| ==> ValidContext(contexts, contexts[j].1)
  }

  lemma AllValidFromStep(contexts: Contexts, i: nat)
    requires i < |contexts|
    ensures AllValidFrom(contexts, i) <==> ValidContext(contexts, contexts[i].1) && AllValidFrom(contexts, i + 1)
  {
    if ValidContext(contexts, contexts[i].1) && AllValidFrom(contexts, i + 1) {
      forall j | i <= j < |contexts|
        ensures ValidContext(contexts, contexts[j].1)
      {
        if j > i {
          assert i + 1 <= j;
        }
      }
    }
  }

  /** The checks of the contexts from index `i` on, stopping at the first
      failure; on success, every file named, in order. */
  function CheckFrom(contexts: Contexts, i: nat): (r: Result<seq<string>, ContextMapError>)
    requires i <= |contexts|
    ensures r.Success? <==> AllValidFrom(contexts, i)
    ensures r.Failure? ==> r.error.ContextNotObject? || r.error.MissingLabel? || r.error.UnknownDependency?
    decreases |contexts| - i
  {
    if i == |contexts| then Success([])
    else
      AllValidFromStep(contexts, i);
      match CheckContext(contexts, contexts[i].0, contexts[i].1)
      case Failure(e) => Failure(e)
      case Success(files) =>
        match CheckFrom(contexts, i + 1)
        case Failure(e) => Failure(e)
        case Success(rest) => Success(files + rest)
  }

  /** The first file not in the package. */
  function FirstMissingFile(files: seq<string>, available: set<string>): (r: Option<string>)
    ensures r.None? <==> forall i :: 0 <= i < |files| ==> files[i] in available
    ensures r.Some? ==> r.value in files && r.value !in available
    decreases |files|
  {
    if |files| == 0 then None
    else if files[0] !in available then Some(files[0])
    else
      assert forall i :: 1 <= i < |files| ==> files[i] == files[1..][i - 1];
      FirstMissingFile(files[1..], available)
  }

  function KeySet(g: Contexts): set<string> {
    set i | 0 <= i < |g| :: g[i].0
  }

  /** The dependencies of a context, looked up by key. */
  function DepsOf(g: Contexts, key: string): seq<string> {
    match Lookup(g, key)
    case Some(ctx) => Deps(ctx)
    case None => []
  }

  /** Every dependency names a context. */
  predicate Closed(g: Contexts) {
    forall k, d :: k in KeySet(g) && d in DepsOf(g, k) ==> d in KeySet(g)
  }

  function StackSet(stack: seq<string>): set<string> {
    set i | 0 <= i < |stack| :: stack[i]
  }

  lemma StackSetPush(stack: seq<string>, key: string)
    ensures StackSet(stack + [key]) == StackSet(stack) + {key}
    ensures key in StackSet(stack) <==> key in stack
  {
    if key in stack {
      var i :| 0 <= i < |stack| && stack[i] == key;
    }
    var s' := stack + [key];
    assert forall i :: 0 <= i < |stack| ==> s'[i] == stack[i];
    assert s'[|stack|] == key;
    forall x | x in StackSet(s')
      ensures x in StackSet(stack) + {key}
    {
      var i :| 0 <= i < |s'| && s'[i] == x;
    }
    forall x | x in StackSet(stack) + {key}
      ensures x in StackSet(s')
    {
      if x != key {
        var i :| 0 <= i < |stack| && stack[i] == x;
        assert s'[i] == x;
      }
    }
  }

  /** `visit(key)`: a visited key is skipped, a key being visited is a cycle;
      otherwise its dependencies are visited and then the key is appended.
      `stack` holds the keys being visited, `done` the keys sorted so far. */
  function Visit(g: Contexts, key: string, stack: seq<string>, done: seq<string>): (r: Result<seq<string>, ContextMapError>)
    requires Closed(g) && key in KeySet(g) && StackSet(stack) <= KeySet(g)
    ensures r.Failure? ==> r.error.CircularDependency?
    decreases KeySet(g) - StackSet(stack), 0, 0
  {
    if key in done then Success(done)
    else if key in stack then Failure(CircularDependency(key))
    else
      StackSetPush(stack, key);
      assert key in KeySet(g) - StackSet(stack);
      assert forall d :: d in DepsOf(g, key) ==> d in KeySet(g);
      var done' :- VisitAll(g, DepsOf(g, key), stack + [key], done);
      Success(done' + [key])
  }

  /** The loop over one key's dependencies. */
  function VisitAll(g: Contexts, deps: seq<string>, stack: seq<string>, done: seq<string>): (r: Result<seq<string>, ContextMapError>)
    requires Closed(g) && StackSet(stack) <= KeySet(g)
    requires forall d :: d in deps ==> d in KeySet(g)
    ensures r.Failure? ==> r.error.CircularDependency?
    decreases KeySet(g) - StackSet(stack), 1, |deps|
  {
    if |deps| == 0 then Success(done)
    else
      var done' :- Visit(g, deps[0], stack, done);
      VisitAll(g, deps[1..], stack, done')
  }

  /** The outer loop over every key, each visited with an empty stack. */
  function VisitKeys(g: Contexts, keys: seq<string>, done: seq<string>): (r: Result<seq<string>, ContextMapError>)
    requires Closed(g) && forall k :: k in keys ==> k in KeySet(g)
    ensures r.Failure? ==> r.error.CircularDependency?
    decreases |keys|
  {
    if |keys| == 0 then Success(done)
    else
      assert StackSet([]) == {};
      var done' :- Visit(g, keys[0], [], done);
      VisitKeys(g, keys[1..], done')
  }

  /** A valid partial order of keys: no key twice, every one a context, and
      each one's dependencies all before it. */
  predicate DepsFirst(g: Contexts, s: seq<string>) {
    && (forall i, j :: 0 <= i < j < |s| ==> s[i] != s[j])
    && (forall i :: 0 <= i < |s| ==> s[i] in KeySet(g))
    && (forall i, d :: 0 <= i < |s| && d in DepsOf(g, s[i]) ==> d in s[..i])
  }

  predicate Extends(done: seq<string>, r: seq<string>) {
    |done| <= |r| && r[..|done|] == done
  }

  /** Appending a key that is new and whose dependencies are all present keeps
      the order valid. */
  lemma DepsFirstAppend(g: Contexts, s: seq<string>, key: string)
    requires DepsFirst(g, s) && key in KeySet(g) && key !in s
    requires forall d :: d in DepsOf(g, key) ==> d in s
    ensures DepsFirst(g, s + [key])
  {
    var s' := s + [key];
    assert s'[..|s|] == s;
    forall i, d | 0 <= i < |s'| && d in DepsOf(g, s'[i])
      ensures d in s'[..i]
    {
      if i < |s| {
        assert s'[i] == s[i];
        assert s'[..i] == s[..i];
      }
    }
  }

  /** A successful visit extends the order with the key, keeps it valid, and
      appends no key that is being visited. */
  lemma {:induction false} VisitSound(g: Contexts, key: string, stack: seq<string>, done: seq<string>)
    requires Closed(g) && key in KeySet(g) && StackSet(stack) <= KeySet(g)
    requires DepsFirst(g, done)
    ensures var r := Visit(g, key, stack, done);
      r.Success? ==> (Extends(done, r.value) && key in r.value && DepsFirst(g, r.value)
        && forall i :: |done| <= i < |r.value| ==> r.value[i] !in stack)
    decreases KeySet(g) - StackSet(stack), 0, 0
  {
    if key !in done && key !in stack {
      StackSetPush(stack, key);
      assert key in KeySet(g) - StackSet(stack);
      var rest := VisitAll(g, DepsOf(g, key), stack + [key], done);
      VisitAllSound(g, DepsOf(g, key), stack + [key], done);
      if rest.Success? {
        var d' := rest.value;
        assert forall i :: |done| <= i < |d'| ==> d'[i] != key;
        assert key !in d' by {
          forall i | 0 <= i < |d'|
            ensures d'[i] != key
          {
            if i < |done| {
              assert d'[i] == done[i];
            }
          }
        }
        DepsFirstAppend(g, d', key);
        var r := d' + [key];
        assert r[..|done|] == d'[..|done|];
        forall i | |done| <= i < |r|
          ensures r[i] !in stack
        {
          if i < |d'| {
            assert r[i] == d'[i];
            assert d'[i] !in stack + [key];
          }
        }
      }
    }
  }

  lemma {:induction false} VisitAllSound(g: Contexts, deps: seq<string>, stack: seq<string>, done: seq<string>)
    requires Closed(g) && StackSet(stack) <= KeySet(g)
    requires forall d :: d in deps ==> d in KeySet(g)
    requires DepsFirst(g, done)
    ensures var r := VisitAll(g, deps, stack, done);
      r.Success? ==> (Extends(done, r.value) && DepsFirst(g, r.value)
        && (forall d :: d in deps ==> d in r.value)
        && forall i :: |done| <= i < |r.value| ==> r.value[i] !in stack)
    decreases KeySet(g) - StackSet(stack), 1, |deps|
  {
    if |deps| > 0 {
      var first := Visit(g, deps[0], stack, done);
      VisitSound(g, deps[0], stack, done);
      if first.Success? {
        var d1 := first.value;
        var r := VisitAll(g, deps[1..], stack, d1);
        VisitAllSound(g, deps[1..], stack, d1);
        if r.Success? {
          var d2 := r.value;
          assert d2[..|done|] == d1[..|done|];
          assert deps[0] in d2 by {
            var j :| 0 <= j < |d1| && d1[j] == deps[0];
            assert d2[j] == d1[j];
          }
          assert forall d :: d in deps ==> d == deps[0] || d in deps[1..];
          forall i | |done| <= i < |d2|
            ensures d2[i] !in stack
          {
            if i < |d1| {
              assert d2[i] == d1[i];
            }
          }
        }
      }
    }
  }

  /** Each key in `p` depends on the next one. */
  predicate Path(g: Contexts, p: seq<string>) {
    forall i :: 0 <= i < |p| - 1 ==> p[i + 1] in DepsOf(g, p[i])
  }

  /** A dependency cycle: a path whose last key depends on its first. */
  predicate IsCycle(g: Contexts, c: seq<string>) {
    |c| > 0 && Path(g, c) && c[0] in DepsOf(g, c[|c| - 1])
  }

  lemma PathPush(g: Contexts, p: seq<string>, key: string)
    requires Path(g, p) && (|p| > 0 ==> key in DepsOf(g, p[|p| - 1]))
    ensures Path(g, p + [key])
  {
    var p' := p + [key];
    assert p'[..|p|] == p;
    forall i | 0 <= i < |p'| - 1
      ensures p'[i + 1] in DepsOf(g, p'[i])
    {
      PathPushStep(g, p, key, i);
    }
  }

  lemma PathPushStep(g: Contexts, p: seq<string>, key: string, i: nat)
    requires Path(g, p) && (|p| > 0 ==> key in DepsOf(g, p[|p| - 1]))
    requires i < |p|
    ensures (p + [key])[i + 1] in DepsOf(g, (p + [key])[i])
  {
    if i + 1 < |p| {
      assert (p + [key])[i + 1] == p[i + 1];
    }
  }

  /** Meeting a key already being visited closes a cycle: the stack from that
      key on. */
  lemma StackCycle(g: Contexts, stack: seq<string>, key: string) returns (cyc: seq<string>)
    requires Path(g, stack) && key in stack && key in DepsOf(g, stack[|stack| - 1])
    ensures IsCycle(g, cyc) && cyc[0] == key
  {
    var j :| 0 <= j < |stack| && stack[j] == key;
    cyc := stack[j..];
    PathSuffix(g, stack, j);
    assert cyc[|cyc| - 1] == stack[|stack| - 1];
  }

  /** A path's suffixes are paths. */
  lemma PathSuffix(g: Contexts, p: seq<string>, j: nat)
    requires Path(g, p) && j <= |p|
    ensures Path(g, p[j..])
  {
    var q := p[j..];
    forall i | 0 <= i < |q| - 1
      ensures q[i + 1] in DepsOf(g, q[i])
    {
      assert q[i] == p[j + i] && q[i + 1] == p[j + i + 1];
    }
  }

  /** A failed visit found a cycle through the key it names, provided the
      keys being visited form a path leading to `key`. */
  lemma {:induction false} VisitFails(g: Contexts, key: string, stack: seq<string>, done: seq<string>) returns (cyc: seq<string>)
    requires Closed(g) && key in KeySet(g) && StackSet(stack) <= KeySet(g)
    requires Path(g, stack) && (|stack| > 0 ==> key in DepsOf(g, stack[|stack| - 1]))
    requires Visit(g, key, stack, done).Failure?
    ensures Visit(g, key, stack, done).error.CircularDependency?
    ensures IsCycle(g, cyc) && cyc[0] == Visit(g, key, stack, done).error.key
    decreases KeySet(g) - StackSet(stack), 0, 0
  {
    if key !in done {
      if key in stack {
        cyc := StackCycle(g, stack, key);
      } else {
        StackSetPush(stack, key);
        assert key in KeySet(g) - StackSet(stack);
        PathPush(g, stack, key);
        cyc := VisitAllFails(g, DepsOf(g, key), stack + [key], done);
      }
    }
  }

  lemma {:induction false} VisitAllFails(g: Contexts, deps: seq<string>, stack: seq<string>, done: seq<string>) returns (cyc: seq<string>)
    requires Closed(g) && StackSet(stack) <= KeySet(g)
    requires forall d :: d in deps ==> d in KeySet(g)
    requires Path(g, stack) && |stack| > 0
    requires forall d :: d in deps ==> d in DepsOf(g, stack[|stack| - 1])
    requires VisitAll(g, deps, stack, done).Failure?
    ensures VisitAll(g, deps, stack, done).error.CircularDependency?
    ensures IsCycle(g, cyc) && cyc[0] == VisitAll(g, deps, stack, done).error.key
    decreases KeySet(g) - StackSet(stack), 1, |deps|
  {
    if |deps| > 0 {
      var first := Visit(g, deps[0], stack, done);
      if first.Failure? {
        cyc := VisitFails(g, deps[0], stack, done);
      } else {
        assert forall d :: d in deps[1..] ==> d in deps;
        cyc := VisitAllFails(g, deps[1..], stack, first.value);
      }
    }
  }

  lemma {:induction false} VisitKeysFails(g: Contexts, keys: seq<string>, done: seq<string>) returns (cyc: seq<string>)
    requires Closed(g) && forall k :: k in keys ==> k in KeySet(g)
    requires VisitKeys(g, keys, done).Failure?
    ensures VisitKeys(g, keys, done).error.CircularDependency?
    ensures IsCycle(g, cyc) && cyc[0] == VisitKeys(g, keys, done).error.key
    decreases |keys|
  {
    if |keys| > 0 {
      assert StackSet([]) == {};
      var first := Visit(g, keys[0], [], done);
      if first.Failure? {
        cyc := VisitFails(g, keys[0], [], done);
      } else {
        assert forall k :: k in keys[1..] ==> k in keys;
        cyc := VisitKeysFails(g, keys[1..], first.value);
      }
    }
  }

  lemma {:induction false} VisitKeysSound(g: Contexts, keys: seq<string>, done: seq<string>)
    requires Closed(g) && forall k :: k in keys ==> k in KeySet(g)
    requires DepsFirst(g, done)
    ensures var r := VisitKeys(g, keys, done);
      r.Success? ==> (Extends(done, r.value) && DepsFirst(g, r.value)
        && forall k :: k in keys ==> k in r.value)
    decreases |keys|
  {
    if |keys| > 0 {
      assert StackSet([]) == {};
      var first := Visit(g, keys[0], [], done);
      VisitSound(g, keys[0], [], done);
      if first.Success? {
        var d1 := first.value;
        assert forall k :: k in keys[1..] ==> k in keys;
        VisitKeysSound(g, keys[1..], d1);
        var r := VisitKeys(g, keys[1..], d1);
        if r.Success? {
          assert r.value[..|done|] == d1[..|done|];
          assert keys[0] in r.value by {
            var j :| 0 <= j < |d1| && d1[j] == keys[0];
            assert r.value[j] == d1[j];
          }
          assert forall k :: k in keys ==> k == keys[0] || k in keys[1..];
        }
      }
    }
  }

  /** The position of `x` in `s`. */
  function Pos(s: seq<string>, x: string): (i: nat)
    requires x in s
    ensures i < |s| && s[i] == x
    decreases |s|
  {
    if s[0] == x then 0 else 1 + Pos(s[1..], x)
  }

  /** Only a context has dependencies. */
  lemma DepsOfKey(g: Contexts, k: string, d: string)
    requires d in DepsOf(g, k)
    ensures k in KeySet(g)
  {
    var v := Lookup(g, k).value;
    var i :| 0 <= i < |g| && g[i] == (k, v);
  }

  /** Along a path, positions in a valid order strictly decrease. */
  lemma {:induction false} PathDescends(g: Contexts, s: seq<string>, p: seq<string>, i: nat)
    requires DepsFirst(g, s) && forall k :: k in KeySet(g) ==> k in s
    requires Path(g, p) && i < |p| && p[0] in s
    ensures p[i] in s && Pos(s, p[i]) + i <= Pos(s, p[0])
    decreases i
  {
    if i > 0 {
      PathDescends(g, s, p, i - 1);
      var q := Pos(s, p[i - 1]);
      assert p[i] in DepsOf(g, s[q]);
      assert p[i] in s[..q];
      var j :| 0 <= j < q && s[j] == p[i];
      assert Pos(s, p[i]) == j;
    }
  }

  /** A key that names no context has no dependencies. */
  lemma NotKeyNoDeps(g: Contexts, k: string)
    requires k !in KeySet(g)
    ensures DepsOf(g, k) == []
  {
    forall i | 0 <= i < |g|
      ensures g[i].0 != k
    {
      assert g[i].0 in KeySet(g);
    }
  }

  /** In a valid order, a path starting at a listed key cannot lead back to it. */
  lemma CycleClosingEdge(g: Contexts, s: seq<string>, cyc: seq<string>)
    requires DepsFirst(g, s) && forall k :: k in KeySet(g) ==> k in s
    requires |cyc| > 0 && Path(g, cyc) && cyc[0] in s
    ensures cyc[0] !in DepsOf(g, cyc[|cyc| - 1])
  {
    var n := |cyc|;
    PathDescends(g, s, cyc, n - 1);
    var q := Pos(s, cyc[n - 1]);
    var p0 := Pos(s, cyc[0]);
    var deps := DepsOf(g, cyc[n - 1]);
    forall t | 0 <= t < |deps|
      ensures deps[t] != cyc[0]
    {
      var d := deps[t];
      assert d in s[..q];
      var j :| 0 <= j < q && s[j] == d;
      assert j < p0 && s[p0] == cyc[0];
    }
  }

  /** A path from a key that names no context goes nowhere, so closes no cycle. */
  lemma NotKeyNoCycle(g: Contexts, cyc: seq<string>)
    requires |cyc| > 0 && cyc[0] !in KeySet(g)
    ensures !IsCycle(g, cyc)
  {
    NotKeyNoDeps(g, cyc[0]);
    if |cyc| > 1 {
      assert cyc[1] !in DepsOf(g, cyc[0]);
    }
  }

  /** A valid order of every key rules out every cycle. */
  lemma DepsFirstNoCycle(g: Contexts, s: seq<string>, cyc: seq<string>)
    requires DepsFirst(g, s) && forall k :: k in KeySet(g) ==> k in s
    ensures !IsCycle(g, cyc)
  {
    if |cyc| > 0 && Path(g, cyc) {
      if cyc[0] in KeySet(g) {
        CycleClosingEdge(g, s, cyc);
      } else {
        NotKeyNoCycle(g, cyc);
      }
    }
  }

  /** The mapping's keys, in order. */
  function KeyList(g: Contexts): (r: seq<string>)
    ensures |r| == |g| && forall i :: 0 <= i < |g| ==> r[i] == g[i].0
  {
    seq(|g|, i requires 0 <= i < |g| => g[i].0)
  }

  lemma KeyListKeys(g: Contexts)
    ensures forall k :: k in KeyList(g) <==> k in KeySet(g)
  {
    forall k | k in KeySet(g)
      ensures k in KeyList(g)
    {
      var i :| 0 <= i < |g| && g[i].0 == k;
      assert KeyList(g)[i] == k;
    }
  }

  /** `topologicalSort`, on the key order alone: every key visited in turn. */
  function TopologicalOrder(g: Contexts): (r: Result<seq<string>, ContextMapError>)
    requires Closed(g)
    ensures r.Failure? ==> r.error.CircularDependency?
  {
    KeyListKeys(g);
    VisitKeys(g, KeyList(g), [])
  }

  /** A successful sort lists every context exactly once, after its dependencies. */
  lemma TopologicalOrderSound(g: Contexts)
    requires Closed(g)
    ensures var r := TopologicalOrder(g);
      r.Success? ==> (DepsFirst(g, r.value) && forall k :: k in r.value <==> k in KeySet(g))
  {
    KeyListKeys(g);
    VisitKeysSound(g, KeyList(g), []);
  }

  /** A failed sort names a key on a cycle. */
  lemma TopologicalOrderFails(g: Contexts) returns (cyc: seq<string>)
    requires Closed(g) && TopologicalOrder(g).Failure?
    ensures TopologicalOrder(g).error.CircularDependency?
    ensures IsCycle(g, cyc) && cyc[0] == TopologicalOrder(g).error.key
  {
    KeyListKeys(g);
    cyc := VisitKeysFails(g, KeyList(g), []);
  }

  /** A cycle makes the sort fail. */
  lemma CycleFailsOrder(g: Contexts, cyc: seq<string>)
    requires Closed(g) && IsCycle(g, cyc)
    ensures TopologicalOrder(g).Failure?
  {
    var r := TopologicalOrder(g);
    if r.Success? {
      TopologicalOrderSound(g);
      DepsFirstNoCycle(g, r.value, cyc);
    }
  }

  /** Without dependencies, the order is the key order. */
  lemma {:induction false} NoDepsVisitKeys(g: Contexts, keys: seq<string>, done: seq<string>)
    requires Closed(g) && forall k :: k in keys ==> k in KeySet(g)
    requires forall k :: k in KeySet(g) ==> DepsOf(g, k) == []
    requires Distinct(keys) && forall k :: k in keys ==> k !in done
    ensures VisitKeys(g, keys, done) == Success(done + keys)
    decreases |keys|
  {
    if |keys| == 0 {
      assert done + keys == done;
    } else {
      assert StackSet([]) == {};
      StackSetPush([], keys[0]);
      assert DepsOf(g, keys[0]) == [];
      assert VisitAll(g, [], [keys[0]], done) == Success(done);
      assert Visit(g, keys[0], [], done) == Success(done + [keys[0]]);
      assert VisitKeys(g, keys, done) == VisitKeys(g, keys[1..], done + [keys[0]]);
      forall k | k in keys[1..]
        ensures k !in done + [keys[0]]
      {
        var j :| 0 <= j < |keys[1..]| && keys[1..][j] == k;
        assert keys[j + 1] == k;
      }
      NoDepsVisitKeys(g, keys[1..], done + [keys[0]]);
      assert done + [keys[0]] + keys[1..] == done + keys;
    }
  }

  lemma NoDepsKeepsKeyOrder(g: Contexts)
    requires Closed(g) && Distinct(KeyList(g))
    requires forall k :: k in KeySet(g) ==> DepsOf(g, k) == []
    ensures TopologicalOrder(g) == Success(KeyList(g))
  {
    KeyListKeys(g);
    NoDepsVisitKeys(g, KeyList(g), []);
    assert [] + KeyList(g) == KeyList(g);
  }

  /** Validation leaves every dependency naming a context. */
  lemma ValidClosed(g: Contexts)
    requires AllValidFrom(g, 0)
    ensures Closed(g)
  {
    forall k, d | k in KeySet(g) && d in DepsOf(g, k)
      ensures d in KeySet(g)
    {
      var v := Lookup(g, k).value;
      var j :| 0 <= j < |g| && g[j] == (k, v);
      assert ValidContext(g, g[j].1);
      var w := Lookup(g, d).value;
      var i :| 0 <= i < |g| && g[i] == (d, w);
    }
  }

  /** The entry built for one sorted key. */
  function BuildContext(g: Contexts, key: string): (c: ContextMapContext)
    ensures c.key == key
  {
    var ctx := Lookup(g, key).GetOr(YNull);
    ContextMapContext(
      key,
      Label(ctx).GetOr(""),
      ToStringArray(Field(ctx, "permanent")),
      ToStringArray(Field(ctx, "stable")),
      ToStringArray(Field(ctx, "working")),
      ToStringArray(Field(ctx, "optional_stable")),
      Deps(ctx),
      match Field(ctx, "output") case Some(YStr(o)) => Some(o) case _ => None)
  }

  /** `parseContextMap` on the loaded document (`None` when loading failed).
      `available` is the set of file paths in the package. */
  function ParseContextMap(raw: Option<Yaml>, available: set<string>): (r: Result<seq<ContextMapContext>, ContextMapError>)
    ensures r == Failure(InvalidYaml) <==> raw.None?
    ensures raw.Some? && !WellFormedDocument(raw) ==>
      r.Failure? && r.error in {MissingContexts, ContextsNotObject, NoContexts}
    ensures raw.Some? && Field(raw.value, "contexts") == Some(YMap([])) ==> r == Failure(NoContexts)
    ensures raw.Some? && Field(raw.value, "contexts").Some? && Field(raw.value, "contexts").value.YList? ==>
      r == Failure(ContextsNotObject)
    ensures r.Success? ==> WellFormedDocument(raw)
  {
    match raw
    case None => Failure(InvalidYaml)
    case Some(y) =>
      var c := Field(y, "contexts");
      if !Truthy(y) || !IsObject(y) || c.None? || !Truthy(c.value) then Failure(MissingContexts)
      else if !c.value.YMap? then Failure(ContextsNotObject)
      else
        var g := c.value.entries;
        if |g| == 0 then Failure(NoContexts)
        else
          var files :- CheckFrom(g, 0);
          match FirstMissingFile(files, available)
          case Some(f) => Failure(FileNotFound(f))
          case None =>
            ValidClosed(g);
            SortAndBuild(g)
  }

  /** The last stage of `parseContextMap`: sort the keys, then build each
      context in that order. */
  function SortAndBuild(g: Contexts): (r: Result<seq<ContextMapContext>, ContextMapError>)
    requires Closed(g)
    ensures r.Failure? ==> r.error.CircularDependency?
  {
    var order :- TopologicalOrder(g);
    Success(MapSeq((k: string) => BuildContext(g, k), order))
  }

  /** The `contexts` mapping of a loaded document, when it is one. */
  function MapEntries(raw: Option<Yaml>): Contexts {
    match raw
    case Some(y) => (match Field(y, "contexts") case Some(YMap(es)) => es case _ => [])
    case None => []
  }

  function OrderKeys(cs: seq<ContextMapContext>): (r: seq<string>)
    ensures |r| == |cs| && forall i :: 0 <= i < |cs| ==> r[i] == cs[i].key
  {
    MapSeq((c: ContextMapContext) => c.key, cs)
  }

  /** Every file a parsed context names. */
  function Files(c: ContextMapContext): seq<string> {
    c.permanent + c.stable + c.working + c.optionalStable
  }

  /** The files gathered by validation include those of every later context. */
  lemma {:induction false} CheckFromFiles(g: Contexts, i: nat, j: nat)
    requires i <= j < |g| && CheckFrom(g, i).Success?
    ensures forall f :: f in ContextFiles(g[j].1) ==> f in CheckFrom(g, i).value
    decreases j - i
  {
    var files := CheckContext(g, g[i].0, g[i].1).value;
    if i < j {
      CheckFromFiles(g, i + 1, j);
    }
  }

  /** A context's file lists as built are the ones validation gathered. */
  lemma BuildContextFiles(g: Contexts, key: string)
    ensures Files(BuildContext(g, key)) == ContextFiles(Lookup(g, key).GetOr(YNull))
  {
  }

  /** How a successful parse was reached: the mapping validated, every file
      was found, and the sort succeeded. */
  lemma ParseSuccessParts(raw: Option<Yaml>, available: set<string>) returns (order: seq<string>)
    requires ParseContextMap(raw, available).Success?
    ensures var g := MapEntries(raw);
      && |g| > 0 && CheckFrom(g, 0).Success? && Closed(g)
      && FirstMissingFile(CheckFrom(g, 0).value, available).None?
      && TopologicalOrder(g) == Success(order)
      && ParseContextMap(raw, available).value == MapSeq((k: string) => BuildContext(g, k), order)
  {
    var y := raw.value;
    var g := Field(y, "contexts").value.entries;
    assert MapEntries(raw) == g;
    ValidClosed(g);
    order := TopologicalOrder(g).value;
  }

  /** What a parsed map promises: every context exactly once, each after the
      contexts it depends on, each with a label, each naming only files in
      the package. */
  lemma ParseContextMapOrder(raw: Option<Yaml>, available: set<string>)
    requires ParseContextMap(raw, available).Success?
    ensures var cs := ParseContextMap(raw, available).value;
      && |cs| > 0
      && Distinct(OrderKeys(cs))
      && (forall k :: k in OrderKeys(cs) <==> k in KeySet(MapEntries(raw)))
      && (forall i, d :: 0 <= i < |cs| && d in cs[i].dependsOn ==> d in OrderKeys(cs[..i]))
  {
    var g := MapEntries(raw);
    var order := ParseSuccessParts(raw, available);
    TopologicalOrderSound(g);
    var cs := ParseContextMap(raw, available).value;
    BuiltOrder(g, order);
    assert g[0].0 in KeySet(g);
  }

  /** The contexts built along an order list that order's keys, each with
      its own dependencies. */
  lemma BuiltOrder(g: Contexts, order: seq<string>)
    requires DepsFirst(g, order)
    ensures var cs := MapSeq((k: string) => BuildContext(g, k), order);
      OrderKeys(cs) == order
      && forall i, d :: 0 <= i < |cs| && d in cs[i].dependsOn ==> d in OrderKeys(cs[..i])
  {
    var cs := MapSeq((k: string) => BuildContext(g, k), order);
    assert OrderKeys(cs) == order;
    forall i, d | 0 <= i < |cs| && d in cs[i].dependsOn
      ensures d in OrderKeys(cs[..i])
    {
      assert cs[i].dependsOn == DepsOf(g, order[i]);
      assert d in order[..i];
      assert OrderKeys(cs[..i]) == order[..i];
    }
  }

  lemma ParseContextMapContents(raw: Option<Yaml>, available: set<string>)
    requires ParseContextMap(raw, available).Success?
    ensures var cs := ParseContextMap(raw, available).value;
      && (forall i :: 0 <= i < |cs| ==> cs[i].labelText != "")
      && (forall i, f :: 0 <= i < |cs| && f in Files(cs[i]) ==> f in available)
  {
    var g := MapEntries(raw);
    var order := ParseSuccessParts(raw, available);
    TopologicalOrderSound(g);
    var cs := ParseContextMap(raw, available).value;
    forall i | 0 <= i < |cs|
      ensures cs[i].labelText != "" && forall f :: f in Files(cs[i]) ==> f in available
    {
      assert cs[i] == BuildContext(g, order[i]);
      BuiltContextContents(g, order[i], available);
    }
  }

  /** A context built for a key of a validated mapping whose files were all
      found has a label and names only available files. */
  lemma BuiltContextContents(g: Contexts, k: string, available: set<string>)
    requires CheckFrom(g, 0).Success? && FirstMissingFile(CheckFrom(g, 0).value, available).None?
    requires k in KeySet(g)
    ensures BuildContext(g, k).labelText != ""
    ensures forall f :: f in Files(BuildContext(g, k)) ==> f in available
  {
    var v := Lookup(g, k).value;
    var j :| 0 <= j < |g| && g[j] == (k, v);
    assert ValidContext(g, g[j].1);
    CheckFromFiles(g, 0, j);
    BuildContextFiles(g, k);
  }

  /** A missing file is one some context names and the package lacks. */
  lemma FileNotFoundIsNamed(raw: Option<Yaml>, available: set<string>) returns (j: nat)
    requires ParseContextMap(raw, available).Failure?
    requires ParseContextMap(raw, available).error.FileNotFound?
    ensures var f := ParseContextMap(raw, available).error.path;
      f !in available && j < |MapEntries(raw)| && f in ContextFiles(MapEntries(raw)[j].1)
  {
    var y := raw.value;
    var g := Field(y, "contexts").value.entries;
    assert MapEntries(raw) == g;
    var files := CheckFrom(g, 0).value;
    var f := FirstMissingFile(files, available).value;
    j := CheckFromFileSource(g, 0, f);
  }

  /** Each gathered file comes from some context. */
  lemma {:induction false} CheckFromFileSource(g: Contexts, i: nat, f: string) returns (j: nat)
    requires i <= |g| && CheckFrom(g, i).Success? && f in CheckFrom(g, i).value
    ensures i <= j < |g| && f in ContextFiles(g[j].1)
    decreases |g| - i
  {
    var files := CheckContext(g, g[i].0, g[i].1).value;
    if f in files {
      j := i;
    } else {
      j := CheckFromFileSource(g, i + 1, f);
    }
  }

  /** A circular-dependency failure names a key on a cycle of the mapping. */
  lemma ParseContextMapCycle(raw: Option<Yaml>, available: set<string>) returns (cyc: seq<string>)
    requires ParseContextMap(raw, available).Failure?
    requires ParseContextMap(raw, available).error.CircularDependency?
    ensures IsCycle(MapEntries(raw), cyc) && cyc[0] == ParseContextMap(raw, available).error.key
  {
    var y := raw.value;
    var g := Field(y, "contexts").value.entries;
    assert MapEntries(raw) == g;
    ValidClosed(g);
    cyc := TopologicalOrderFails(g);
  }

  /** The loaded document is an object whose `contexts` is a non-empty mapping. */
  predicate WellFormedDocument(raw: Option<Yaml>) {
    raw.Some? && Truthy(raw.value) && IsObject(raw.value)
    && Field(raw.value, "contexts").Some? && Field(raw.value, "contexts").value.YMap?
    && |MapEntries(raw)| > 0
  }

  /** Every file any context names is in the package. */
  predicate FilesAvailable(g: Contexts, available: set<string>) {
    forall j, f :: 0 <= j < |g| && f in ContextFiles(g[j].1) ==> f in available
  }

  /** A well-formed document whose contexts validate and name available files
      reaches the sort. */
  lemma ParseReachesSort(raw: Option<Yaml>, available: set<string>)
    requires WellFormedDocument(raw) && AllValidFrom(MapEntries(raw), 0)
    requires FilesAvailable(MapEntries(raw), available)
    ensures Closed(MapEntries(raw))
    ensures ParseContextMap(raw, available) == SortAndBuild(MapEntries(raw))
  {
    var g := MapEntries(raw);
    assert g == Field(raw.value, "contexts").value.entries;
    var files := CheckFrom(g, 0).value;
    forall t | 0 <= t < |files|
      ensures files[t] in available
    {
      var j := CheckFromFileSource(g, 0, files[t]);
    }
    assert FirstMissingFile(files, available).None?;
    ValidClosed(g);
  }

  /** A well-formed map whose contexts all validate, name only available
      files and form no cycle parses. */
  lemma ParseContextMapComplete(raw: Option<Yaml>, available: set<string>)
    requires WellFormedDocument(raw) && AllValidFrom(MapEntries(raw), 0)
    requires FilesAvailable(MapEntries(raw), available)
    requires forall cyc :: !IsCycle(MapEntries(raw), cyc)
    ensures ParseContextMap(raw, available).Success?
  {
    var g := MapEntries(raw);
    ParseReachesSort(raw, available);
    if TopologicalOrder(g).Failure? {
      var cyc := TopologicalOrderFails(g);
    }
  }

  /** A well-formed map whose contexts all validate and name only available
      files, but which holds a cycle, is rejected as circular. */
  lemma ParseContextMapRejectsCycle(raw: Option<Yaml>, available: set<string>, cyc: seq<string>)
    requires WellFormedDocument(raw) && AllValidFrom(MapEntries(raw), 0)
    requires FilesAvailable(MapEntries(raw), available)
    requires IsCycle(MapEntries(raw), cyc)
    ensures ParseContextMap(raw, available).Failure?
    ensures ParseContextMap(raw, available).error.CircularDependency?
  {
    ParseReachesSort(raw, available);
    CycleFailsOrder(MapEntries(raw), cyc);
  }
}
