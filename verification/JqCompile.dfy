/** Compiling through the cache (jqeval/jqeval.go, compile): what the cache holds after any run,
    and exactly when its callers cannot tell it from no cache. */
module JqCompile {
  import opened Sql
  import opened JqCache
  import opened JqKeys
  import Decimals
  import JsonText
  import Csv

  // ----- Least recently used -----

  function Minus(ks: seq<string>, k: string): seq<string> {
    if ks == [] then [] else (if ks[0] == k then [] else [ks[0]]) + Minus(ks[1..], k)
  }

  /** The keys of a history of uses, each once, the one used last first. */
  function Recent(uses: seq<string>): seq<string> {
    if uses == [] then [] else [uses[|uses| - 1]] + Minus(Recent(uses[..|uses| - 1]), uses[|uses| - 1])
  }

  function KeysOf<C>(q: seq<Entry<C>>): (ks: seq<string>)
    ensures |ks| == |q| && forall i :: 0 <= i < |q| ==> ks[i] == q[i].key
  {
    seq(|q|, i requires 0 <= i < |q| => q[i].key)
  }

  function First(ks: seq<string>, n: nat): seq<string> { if |ks| <= n then ks else ks[..n] }

  datatype Op<C> = DoGet(key: string) | DoPut(entry: Entry<C>)

  /** The cache after a run, and the keys it used: those put, and those found. */
  function Run<C>(ops: seq<Op<C>>, max: nat): (seq<Entry<C>>, seq<string>) {
    if ops == [] then ([], []) else
      var (q, uses) := Run(ops[..|ops| - 1], max);
      match ops[|ops| - 1]
      case DoGet(key) => (Touch(q, key), if Find(q, key).Some? then uses + [key] else uses)
      case DoPut(e) => (Insert(q, e, max), uses + [e.key])
  }

  ghost predicate AllDiffer(ks: seq<string>) { forall i, j :: 0 <= i < j < |ks| ==> ks[i] != ks[j] }

  lemma {:induction false} MinusAt(ks: seq<string>, i: nat)
    requires AllDiffer(ks) && i < |ks|
    ensures Minus(ks, ks[i]) == ks[..i] + ks[i + 1..]
  {
    if i == 0 {
      MinusNone(ks[1..], ks[0]);
    } else {
      MinusAt(ks[1..], i - 1);
    }
  }

  lemma {:induction false} MinusNone(ks: seq<string>, k: string)
    requires k !in ks
    ensures Minus(ks, k) == ks
  {
    if ks != [] {
      MinusNone(ks[1..], k);
    }
  }

  lemma FrontDiffers(ks: seq<string>, i: nat)
    requires AllDiffer(ks) && i < |ks|
    ensures AllDiffer([ks[i]] + (ks[..i] + ks[i + 1..]))
  {
  }

  lemma {:induction false} RecentDiffer(uses: seq<string>)
    ensures AllDiffer(Recent(uses))
  {
    hide Minus, AllDiffer;
    if uses == [] {
      NothingDiffers();
    } else {
      var k, rest := uses[|uses| - 1], Recent(uses[..|uses| - 1]);
      RecentDiffer(uses[..|uses| - 1]);
      if k in rest {
        var i :| 0 <= i < |rest| && rest[i] == k;
        MinusAt(rest, i);
        FrontDiffers(rest, i);
      } else {
        MinusNone(rest, k);
        NewDiffers(k, rest);
      }
    }
  }

  lemma NothingDiffers()
    ensures AllDiffer([])
  {
  }

  lemma NewDiffers(k: string, ks: seq<string>)
    requires AllDiffer(ks) && k !in ks
    ensures AllDiffer([k] + ks)
  {
  }

  lemma {:induction false} FindInKeys<C>(q: seq<Entry<C>>, key: string)
    ensures Find(q, key).Some? <==> key in KeysOf(q)
    ensures Find(q, key).Some? ==> Find(q, key).value.key == key
    ensures KeysOf(Without(q, key)) == Minus(KeysOf(q), key)
  {
    if q != [] {
      FindInKeys(q[1..], key);
      assert KeysOf(q)[1..] == KeysOf(q[1..]) && KeysOf(q) == [q[0].key] + KeysOf(q[1..]);
    }
  }

  /** Using a key that is held, or pushing one that is not. */
  lemma UseKeepsRecent(r: seq<string>, k: string, max: nat)
    requires AllDiffer(r)
    ensures k in First(r, max) ==> [k] + Minus(First(r, max), k) == First([k] + Minus(r, k), max)
    ensures k !in First(r, max) ==> First([k] + First(r, max), max) == First([k] + Minus(r, k), max)
  {
    hide Minus;
    if k in r {
      var i :| 0 <= i < |r| && r[i] == k;
      MinusAt(r, i);
      FirstHas(r, i, max);
      if i < max {
        MinusAt(First(r, max), i);
        assert |r| > max ==> r[..max][..i] + r[..max][i + 1..] == (r[..i] + r[i + 1..])[..max - 1];
      }
    } else {
      MinusNone(r, k);
    }
  }

  lemma FirstHas(r: seq<string>, i: nat, max: nat)
    requires AllDiffer(r) && i < |r|
    ensures AllDiffer(First(r, max)) && (r[i] in First(r, max) <==> i < max) && (i < max ==> First(r, max)[i] == r[i])
  {
  }

  /** Main result: after any run the cache holds the max keys used last, in the order of their
      last use; so whatever is evicted was used less recently than everything kept. */
  lemma {:induction false} CacheHoldsTheMostRecent<C>(ops: seq<Op<C>>, max: nat)
    ensures KeysOf(Run(ops, max).0) == First(Recent(Run(ops, max).1), max)
  {
    if ops != [] {
      var (q, uses) := Run(ops[..|ops| - 1], max);
      CacheHoldsTheMostRecent(ops[..|ops| - 1], max);
      RecentDiffer(uses);
      match ops[|ops| - 1]
      case DoGet(key) => TouchKeeps(q, uses, key, max);
      case DoPut(e) => InsertKeeps(q, uses, e, max);
    }
  }

  lemma RecentNext(uses: seq<string>, k: string)
    ensures Recent(uses + [k]) == [k] + Minus(Recent(uses), k)
  {
    assert (uses + [k])[..|uses|] == uses;
  }

  lemma TouchKeeps<C>(q: seq<Entry<C>>, uses: seq<string>, key: string, max: nat)
    requires KeysOf(q) == First(Recent(uses), max) && AllDiffer(Recent(uses))
    ensures KeysOf(Touch(q, key)) == First(Recent(if Find(q, key).Some? then uses + [key] else uses), max)
  {
    hide Recent, Minus, First, Find, Without;
    FindInKeys(q, key);
    UseKeepsRecent(Recent(uses), key, max);
    RecentNext(uses, key);
    if Find(q, key).Some? {
      assert KeysOf(Touch(q, key)) == [key] + KeysOf(Without(q, key));
    }
  }

  lemma InsertKeeps<C>(q: seq<Entry<C>>, uses: seq<string>, e: Entry<C>, max: nat)
    requires KeysOf(q) == First(Recent(uses), max) && AllDiffer(Recent(uses))
    ensures KeysOf(Insert(q, e, max)) == First(Recent(uses + [e.key]), max)
  {
    hide Recent, Minus, Find, Without;
    FindInKeys(q, e.key);
    UseKeepsRecent(Recent(uses), e.key, max);
    RecentNext(uses, e.key);
    if Find(q, e.key).Some? {
      assert KeysOf(Insert(q, e, max)) == [e.key] + KeysOf(Without(q, e.key));
    } else {
      assert KeysOf(Insert(q, e, max)) == First([e.key] + KeysOf(q), max);
    }
  }

  // ----- compile -----

  /** strings.TrimSpace(s) == "" */
  predicate IsBlank(s: string)
    decreases |s|
  {
    s == "" || match JsonText.DecodeRune(s)
      case Rune(code, n) => Csv.IsSpaceRune(code) && IsBlank(s[n..])
      case Invalid => false
  }

  function Refusal(program: string, limit: nat): Option<string> {
    if IsBlank(program) then Some("empty jq program")
    else if |program| > limit then Some("jq program exceeds the maximum allowed size (" + Decimals.Dec(limit) + " bytes)")
    else None
  }

  /** compile without a cache; `gojq` parses and compiles. */
  function Direct<C>(program: string, vars: seq<string>, limit: nat, gojq: (string, seq<string>) -> Compiled<C>): Answer<C> {
    match Refusal(program, limit)
    case Some(msg) => Refused(msg)
    case None =>
      match gojq(program, vars)
      case Code(c) => Answered(Entry(Key(program, vars), c, vars))
      case ParseError(m) => Refused("jq parse error: " + m)
      case CompileError(m) => Refused("jq compile error: " + m)
  }

  lemma {:induction false} BlankExactly(s: string)
    ensures (forall i :: 0 <= i < |s| ==> s[i] == ' ' || 9 <= s[i] as int <= 13) ==> IsBlank(s)
    ensures (exists i :: 0 <= i < |s| && '!' <= s[i] <= '~') ==> !IsBlank(s)
    decreases |s|
  {
    if s != "" && JsonText.DecodeRune(s).Rune? {
      var n := JsonText.DecodeRune(s).size;
      BlankExactly(s[n..]);
      if i :| 0 <= i < |s| && '!' <= s[i] <= '~' && i >= n {
        assert s[n..][i - n] == s[i];
      }
    }
  }

  /** Main result: a program within the limit that prints anything is compiled with the names given,
      as the compiler does it; too long ones and blank ones are refused. */
  lemma DirectIsTheCompiler<C>(program: string, vars: seq<string>, limit: nat, gojq: (string, seq<string>) -> Compiled<C>)
    ensures var a := Direct(program, vars, limit, gojq);
      && (|program| > limit ==> a.Refused?)
      && ((forall i :: 0 <= i < |program| ==> program[i] == ' ' || 9 <= program[i] as int <= 13) ==> a.Refused?)
      && (|program| <= limit && (exists i :: 0 <= i < |program| && '!' <= program[i] <= '~') ==>
            match gojq(program, vars)
            case Code(c) => a.Answered? && a.entry.code == c && a.entry.vars == vars
            case _ => a.Refused?)
  {
    hide IsBlank, Key;
    BlankExactly(program);
  }

  /** compile: the answer and the cache afterwards. */
  function Cached<C>(q: seq<Entry<C>>, max: nat, program: string, vars: seq<string>, limit: nat, gojq: (string, seq<string>) -> Compiled<C>)
    : (Answer<C>, seq<Entry<C>>)
  {
    if Refusal(program, limit).Some? then (Direct(program, vars, limit, gojq), q)
    else match Find(q, Key(program, vars))
      case Some(e) => (Answered(e), Touch(q, Key(program, vars)))
      case None =>
        var answer := Direct(program, vars, limit, gojq);
        (answer, if answer.Answered? then Insert(q, answer.entry, max) else q)
  }

  method Compile<C(==)>(cache: Cache<C>, program: string, vars: seq<string>, limit: nat, gojq: (string, seq<string>) -> Compiled<C>)
    returns (answer: Answer<C>)
    requires cache.Valid()
    modifies cache`ll, cache`items, cache.ll
    ensures cache.Valid() && (answer, cache.View()) == Cached(old(cache.View()), cache.max, program, vars, limit, gojq)
  {
    hide Cache.Valid, Find, Insert, Values;
    if IsBlank(program) {
      return Refused("empty jq program");
    }
    if |program| > limit {
      return Refused("jq program exceeds the maximum allowed size (" + Decimals.Dec(limit) + " bytes)");
    }
    var key := Key(program, vars);
    var entry := cache.Get(key);
    if entry.Some? {
      return Answered(entry.value);
    }
    match gojq(program, vars)
    case ParseError(m) => answer := Refused("jq parse error: " + m);
    case CompileError(m) => answer := Refused("jq compile error: " + m);
    case Code(c) =>
      var made := Entry(key, c, vars);
      assert cache.ll == old(cache.ll);
      cache.Put(made);
      answer := Answered(made);
  }

  // ----- Who can tell -----

  type Request = (string, seq<string>)

  predicate IsRefused(r: Request, limit: nat) { Refusal(r.0, limit).Some? }

  /** The entry was made for one of these requests. */
  ghost predicate Made<C>(e: Entry<C>, requests: seq<Request>, limit: nat, gojq: (string, seq<string>) -> Compiled<C>) {
    exists r :: r in requests && IsMadeFor(e, r, limit, gojq)
  }

  ghost predicate IsMadeFor<C>(e: Entry<C>, r: Request, limit: nat, gojq: (string, seq<string>) -> Compiled<C>) {
    !IsRefused(r, limit) && e.key == Key(r.0, r.1) && Direct(r.0, r.1, limit, gojq) == Answered(e)
  }

  ghost predicate AllMade<C>(q: seq<Entry<C>>, requests: seq<Request>, limit: nat, gojq: (string, seq<string>) -> Compiled<C>) {
    forall e :: e in q ==> Made(e, requests, limit, gojq)
  }

  /** Both reach the cache, with one key. */
  predicate Clash(r: Request, s: Request, limit: nat) {
    !IsRefused(r, limit) && !IsRefused(s, limit) && Key(r.0, r.1) == Key(s.0, s.1)
  }

  /** Different requests that reach the cache have different keys. */
  ghost predicate KeysAreOwn(requests: seq<Request>, limit: nat) {
    forall r, s :: r in requests && s in requests && Clash(r, s, limit) ==> r == s
  }

  lemma {:induction false} FoundIsIn<C>(q: seq<Entry<C>>, key: string)
    ensures Find(q, key).Some? ==> Find(q, key).value in q && Find(q, key).value.key == key
    ensures forall e :: e in Without(q, key) ==> e in q
  {
    if q != [] {
      FoundIsIn(q[1..], key);
    }
  }

  lemma DirectIsMade<C>(r: Request, limit: nat, gojq: (string, seq<string>) -> Compiled<C>)
    ensures var a := Direct(r.0, r.1, limit, gojq);
      a.Answered? ==> a.entry.key == Key(r.0, r.1) && IsMadeFor(a.entry, r, limit, gojq)
  {
    hide Key, Refusal;
  }

  /** One request: the answer is that of compiling anew, and the entries stay what they are. */
  lemma CachedIsDirect<C>(q: seq<Entry<C>>, max: nat, requests: seq<Request>, r: Request, limit: nat, gojq: (string, seq<string>) -> Compiled<C>)
    requires AllMade(q, requests, limit, gojq) && r in requests && KeysAreOwn(requests, limit)
    ensures Cached(q, max, r.0, r.1, limit, gojq).0 == Direct(r.0, r.1, limit, gojq)
    ensures AllMade(Cached(q, max, r.0, r.1, limit, gojq).1, requests, limit, gojq)
  {
    hide Direct, Refusal, Key, IsMadeFor;
    var key := Key(r.0, r.1);
    FoundIsIn(q, key);
    DirectIsMade(r, limit, gojq);
    if !IsRefused(r, limit) {
      match Find(q, key)
      case Some(e) => FoundIsDirect(e, requests, r, limit, gojq);
      case None =>
        var answer := Direct(r.0, r.1, limit, gojq);
        if answer.Answered? {
          FoundIsIn(q, answer.entry.key);
          assert Made(answer.entry, requests, limit, gojq);
        }
    }
  }

  lemma FoundIsDirect<C>(e: Entry<C>, requests: seq<Request>, r: Request, limit: nat, gojq: (string, seq<string>) -> Compiled<C>)
    requires Made(e, requests, limit, gojq) && e.key == Key(r.0, r.1)
    requires r in requests && !IsRefused(r, limit) && KeysAreOwn(requests, limit)
    ensures Direct(r.0, r.1, limit, gojq) == Answered(e)
  {
    hide Direct, Refusal, Key;
    var s :| s in requests && IsMadeFor(e, s, limit, gojq);
  }

  /** The answers of a run of requests, through one cache. */
  function Answers<C>(requests: seq<Request>, max: nat, limit: nat, gojq: (string, seq<string>) -> Compiled<C>)
    : (r: (seq<Answer<C>>, seq<Entry<C>>))
    ensures |r.0| == |requests|
  {
    if requests == [] then ([], []) else
      var n := |requests| - 1;
      var (before, q) := Answers(requests[..n], max, limit, gojq);
      var (a, q') := Cached(q, max, requests[n].0, requests[n].1, limit, gojq);
      (before + [a], q')
  }

  ghost predicate AnswersAreDirect<C>(requests: seq<Request>, max: nat, limit: nat, gojq: (string, seq<string>) -> Compiled<C>) {
    forall i :: 0 <= i < |requests| ==>
      Answers(requests, max, limit, gojq).0[i] == Direct(requests[i].0, requests[i].1, limit, gojq)
  }

  /** Whatever the compiler does, every answer of the run is the one without a cache. */
  ghost predicate IsInvisible<C(!new)>(requests: seq<Request>, max: nat, limit: nat) {
    forall gojq: (string, seq<string>) -> Compiled<C> :: AnswersAreDirect(requests, max, limit, gojq)
  }

  lemma {:induction false} OwnKeysAreInvisible<C>(requests: seq<Request>, n: nat, max: nat, limit: nat, gojq: (string, seq<string>) -> Compiled<C>)
    requires n <= |requests| && KeysAreOwn(requests, limit)
    ensures AnswersAreDirect(requests[..n], max, limit, gojq)
    ensures AllMade(Answers(requests[..n], max, limit, gojq).1, requests, limit, gojq)
  {
    hide Direct, Cached, KeysAreOwn, Made;
    if n > 0 {
      assert requests[..n][..n - 1] == requests[..n - 1];
      OwnKeysAreInvisible(requests, n - 1, max, limit, gojq);
      CachedIsDirect(Answers(requests[..n - 1], max, limit, gojq).1, max, requests, requests[n - 1], limit, gojq);
    }
  }

  // A compiler that knows one program only.

  function OnlyFor<C>(r: Request, c: C): (string, seq<string>) -> Compiled<C> {
    (p, vs) => if (p, vs) == r then Code(c) else ParseError("")
  }

  lemma OnlyOneIsAnswered<C>(r: Request, c: C, s: Request, limit: nat)
    requires !IsRefused(r, limit)
    ensures Direct(s.0, s.1, limit, OnlyFor(r, c)) == Answered(Entry(Key(r.0, r.1), c, r.1)) <==> s == r
    ensures Direct(s.0, s.1, limit, OnlyFor(r, c)).Refused? <==> s != r
  {
    hide Key, Refusal;
    assert OnlyFor(r, c)(s.0, s.1) == if (s.0, s.1) == r then Code(c) else ParseError("");
  }

  /** The cache is empty until that program comes, and holds just its entry from then on. */
  lemma {:induction false} OnlyOneIsHeld<C>(requests: seq<Request>, r: Request, c: C, max: nat, limit: nat)
    requires max >= 1 && !IsRefused(r, limit)
    ensures Answers(requests, max, limit, OnlyFor(r, c)).1 == if r in requests then [Entry(Key(r.0, r.1), c, r.1)] else []
  {
    hide Direct, Refusal, Key, OnlyFor, Find, Without;
    if requests != [] {
      var n := |requests| - 1;
      var s := requests[n];
      assert requests == requests[..n] + [s];
      OnlyOneIsHeld(requests[..n], r, c, max, limit);
      OnlyOneIsAnswered(r, c, s, limit);
      OneEntry(Entry(Key(r.0, r.1), c, r.1), Key(s.0, s.1));
    }
  }

  lemma OneEntry<C>(e: Entry<C>, key: string)
    ensures Find<C>([], key).None?
    ensures Find([e], key) == if e.key == key then Some(e) else None
    ensures Touch([e], key) == [e]
  {
    assert [e][1..] == [];
    assert Without([e][1..], key) == [];
  }

  lemma SharedKeyIsVisible<C>(requests: seq<Request>, i: nat, j: nat, c: C, max: nat, limit: nat)
    requires max >= 1 && i < j < |requests| && requests[i] != requests[j]
    requires Clash(requests[i], requests[j], limit)
    ensures !AnswersAreDirect(requests, max, limit, OnlyFor(requests[i], c))
  {
    hide Direct, Refusal, Key, OnlyFor, Find;
    var r, s := requests[i], requests[j];
    assert r in requests[..j] by { assert requests[..j][i] == r; }
    OnlyOneIsHeld(requests[..j], r, c, max, limit);
    OnlyOneIsAnswered(r, c, s, limit);
    OneEntry(Entry(Key(r.0, r.1), c, r.1), Key(s.0, s.1));
    AnswerAt(requests, j, max, limit, OnlyFor(r, c));
  }

  lemma {:induction false} AnswerAt<C>(requests: seq<Request>, j: nat, max: nat, limit: nat, gojq: (string, seq<string>) -> Compiled<C>)
    requires j < |requests|
    ensures Answers(requests, max, limit, gojq).0[j]
         == Cached(Answers(requests[..j], max, limit, gojq).1, max, requests[j].0, requests[j].1, limit, gojq).0
  {
    hide Cached;
    var n := |requests| - 1;
    if j < n {
      assert requests[..n][..j] == requests[..j];
      AnswerAt(requests[..n], j, max, limit, gojq);
    }
  }

  /** Main result: a run of requests cannot tell the cache from none, whatever the compiler does, if
      and only if the cache holds nothing or no two different requests that reach it share a key. The
      parameter c is no more than a compiled program, for compilers that accept one request only. */
  lemma CacheIsInvisibleExactly<C(!new)>(c: C, requests: seq<Request>, max: nat, limit: nat)
    ensures IsInvisible<C>(requests, max, limit) <==> max == 0 || KeysAreOwn(requests, limit)
  {
    hide AnswersAreDirect, Key, IsRefused;
    if KeysAreOwn(requests, limit) {
      forall gojq: (string, seq<string>) -> Compiled<C> ensures AnswersAreDirect(requests, max, limit, gojq) {
        OwnKeysAreInvisible(requests, |requests|, max, limit, gojq);
        assert requests[..|requests|] == requests;
      }
    } else if max == 0 {
      forall gojq: (string, seq<string>) -> Compiled<C> ensures AnswersAreDirect(requests, max, limit, gojq) {
        EmptyCacheIsInvisible(requests, limit, gojq);
      }
    } else {
      var r, s :| r in requests && s in requests && Clash(r, s, limit) && r != s;
      var i :| 0 <= i < |requests| && requests[i] == r;
      var j :| 0 <= j < |requests| && requests[j] == s;
      var first, second := if i < j then i else j, if i < j then j else i;
      SharedKeyIsVisible(requests, first, second, c, max, limit);
    }
  }

  lemma {:induction false} EmptyCacheIsInvisible<C>(requests: seq<Request>, limit: nat, gojq: (string, seq<string>) -> Compiled<C>)
    ensures AnswersAreDirect(requests, 0, limit, gojq) && Answers(requests, 0, limit, gojq).1 == []
  {
    hide Direct, Refusal, Key;
    if requests != [] {
      EmptyCacheIsInvisible(requests[..|requests| - 1], limit, gojq);
    }
  }

  /** So for ordinary requests it is invisible. */
  lemma CacheIsInvisible<C(!new)>(c: C, requests: seq<Request>, max: nat, limit: nat)
    requires forall r :: r in requests ==> IsOrdinary(r.0, r.1)
    ensures IsInvisible<C>(requests, max, limit)
  {
    hide IsOrdinary, IsInvisible, Key;
    forall r, s | r in requests && s in requests && Clash(r, s, limit) ensures r == s {
      KeyIsInjective(r.0, r.1, s.0, s.1);
    }
    CacheIsInvisibleExactly(c, requests, max, limit);
  }

  /** And it can be seen as soon as two variables meet a name with a comma. */
  lemma CollisionIsVisible<C(!new)>(c: C, max: nat, limit: nat)
    requires max >= 1 && limit >= 1
    ensures !IsInvisible<C>([("1", ["$x", "$y"]), ("1", ["$x,$y"])], max, limit)
  {
    hide IsInvisible, Key;
    var r, s := ("1", ["$x", "$y"]), ("1", ["$x,$y"]);
    KeysCollide();
    assert !IsBlank("1");
    assert |r.1| != |s.1| && r in [r, s] && s in [r, s];
    CacheIsInvisibleExactly(c, [r, s], max, limit);
  }
}
