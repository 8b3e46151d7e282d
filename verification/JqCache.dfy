/** The cache of compiled jq programs (jqeval/jqeval.go): least recently used entries go
    first. gojq is a function from programs and variable names to code
    or an error; C is the type of compiled code. */
module JqCache {
  import opened Sql

  datatype Entry<C> = Entry(key: string, code: C, vars: seq<string>)

  datatype Compiled<C> = Code(code: C) | ParseError(msg: string) | CompileError(msg: string)

  datatype Answer<C> = Answered(entry: Entry<C>) | Refused(msg: string)

  // ----- An LRU cache, most recently used entry first -----

  function Find<C>(q: seq<Entry<C>>, key: string): Option<Entry<C>> {
    if q == [] then None else if q[0].key == key then Some(q[0]) else Find(q[1..], key)
  }

  function Without<C>(q: seq<Entry<C>>, key: string): (r: seq<Entry<C>>)
    ensures |r| <= |q|
  {
    if q == [] then [] else (if q[0].key == key then [] else [q[0]]) + Without(q[1..], key)
  }

  function Touch<C>(q: seq<Entry<C>>, key: string): seq<Entry<C>> {
    match Find(q, key) case Some(e) => [e] + Without(q, key) case None => q
  }

  function Insert<C>(q: seq<Entry<C>>, e: Entry<C>, max: nat): seq<Entry<C>> {
    if Find(q, e.key).Some? then [e] + Without(q, e.key)
    else if |q| + 1 > max then ([e] + q)[..max] else [e] + q
  }

  ghost predicate KeysDiffer<C>(q: seq<Entry<C>>) { forall i, j :: 0 <= i < j < |q| ==> q[i].key != q[j].key }

  // ----- The cache -----

  class Element<C> {
    var value: Entry<C>

    constructor (e: Entry<C>)
      ensures value == e
    {
      value := e;
    }
  }

  ghost function Values<C>(ll: seq<Element<C>>): (q: seq<Entry<C>>)
    reads ll
    ensures |q| == |ll| && forall i :: 0 <= i < |ll| ==> q[i] == ll[i].value
  {
    seq(|ll|, i requires 0 <= i < |ll| reads ll => ll[i].value)
  }

  lemma ValuesAdded<C>(ll: seq<Element<C>>, el: Element<C>)
    ensures Values([el] + ll) == [el.value] + Values(ll)
  {
  }

  /** List and map hold the same elements, each under its own key. */
  ghost predicate AreLinked<C>(ll: seq<Element<C>>, items: map<string, Element<C>>)
    reads ll
  {
    && (forall i, j :: 0 <= i < j < |ll| ==> ll[i] != ll[j])
    && (forall e :: e in ll ==> e.value.key in items && items[e.value.key] == e)
    && (forall k :: k in items ==> items[k] in ll && items[k].value.key == k)
  }

  function Moved<T>(ll: seq<T>, j: nat): (r: seq<T>)
    requires j < |ll|
    ensures |r| == |ll| && r == [ll[j]] + ll[..j] + ll[j + 1..]
    ensures forall i :: 0 <= i < |ll| ==> r[i] == if i == 0 then ll[j] else if i <= j then ll[i - 1] else ll[i]
  {
    [ll[j]] + ll[..j] + ll[j + 1..]
  }

  lemma ValuesMoved<C>(ll: seq<Element<C>>, j: nat)
    requires j < |ll|
    ensures Values(Moved(ll, j)) == [ll[j].value] + (Values(ll)[..j] + Values(ll)[j + 1..])
  {
  }

  lemma MovedAreLinked<C>(ll: seq<Element<C>>, items: map<string, Element<C>>, j: nat)
    requires j < |ll| && AreLinked(ll, items)
    ensures AreLinked(Moved(ll, j), items)
  {
    hide Moved;
    MovedDiffer(ll, j);
    MovedAreTheSame(ll, j);
  }

  lemma MovedDiffer<T>(ll: seq<T>, j: nat)
    requires j < |ll| && forall a, b :: 0 <= a < b < |ll| ==> ll[a] != ll[b]
    ensures forall a, b :: 0 <= a < b < |ll| ==> Moved(ll, j)[a] != Moved(ll, j)[b]
  {
  }

  lemma MovedAreTheSame<T>(ll: seq<T>, j: nat)
    requires j < |ll|
    ensures forall e :: e in Moved(ll, j) <==> e in ll
  {
    var r := Moved(ll, j);
    forall e | e in ll ensures e in r {
      var i :| 0 <= i < |ll| && ll[i] == e;
      assert r[if i == j then 0 else if i < j then i + 1 else i] == e;
    }
  }

  class Cache<C(==)> {
    const max: nat
    var ll: seq<Element<C>>
    var items: map<string, Element<C>>

    ghost predicate Linked()
      reads this, ll
    {
      AreLinked(ll, items)
    }

    ghost predicate Valid()
      reads this, ll
    {
      Linked() && |ll| <= max
    }

    ghost function View(): seq<Entry<C>>
      reads this, ll
    {
      Values(ll)
    }

    constructor (max: nat)
      ensures Valid() && View() == [] && this.max == max
    {
      this.max := max;
      ll, items := [], map[];
    }

    /** container/list, MoveToFront; i is where the element is. */
    method MoveToFront(el: Element<C>) returns (ghost i: nat)
      requires Linked() && el in ll
      modifies this`ll
      ensures Linked() && i < |old(ll)| && old(ll)[i] == el && ll == [el] + old(ll)[..i] + old(ll)[i + 1..]
      ensures View() == [el.value] + (old(View())[..i] + old(View())[i + 1..])
    {
      hide Values, AreLinked, Moved;
      var j :| 0 <= j < |ll| && ll[j] == el;
      i := j;
      ValuesMoved(ll, j);
      MovedAreLinked(ll, items, j);
      ll := Moved(ll, j);
    }

    lemma ItemFacts(key: string)
      requires Linked()
      ensures KeysDiffer(View())
      ensures key in items ==> items[key] in ll && items[key].value.key == key
      ensures key !in items ==> forall i :: 0 <= i < |View()| ==> View()[i].key != key
    {
    }

    method Get(key: string) returns (entry: Option<Entry<C>>)
      requires Valid()
      modifies this`ll
      ensures Valid() && items == old(items) && (entry == None ==> ll == old(ll))
      ensures entry == Find(old(View()), key) && View() == Touch(old(View()), key)
    {
      hide AreLinked, KeysDiffer, Find, Without;
      ghost var q := View();
      ItemFacts(key);
      if key in items {
        var el := items[key];
        ghost var i := MoveToFront(el);
        FindAt(q, i);
        entry := Some(el.value);
      } else {
        FindNone(q, key);
        entry := None;
      }
    }

    method Put(entry: Entry<C>)
      requires Valid()
      modifies this`ll, this`items, ll
      ensures Valid() && View() == Insert(old(View()), entry, max)
    {
      hide AreLinked, KeysDiffer, Find, Without;
      ghost var q := View();
      ItemFacts(entry.key);
      if entry.key in items {
        var el := items[entry.key];
        ghost var i := MoveToFront(el);
        FindAt(q, i);
        Replace(el, entry);
        return;
      }
      FindNone(q, entry.key);
      PushFront(entry);
      while |ll| > max
        invariant Linked() && |ll| <= |q| + 1 && (max <= |ll| || |ll| == |q| + 1) && View() == ([entry] + q)[..|ll|]
        decreases |ll|
      {
        RemoveBack();
      }
    }

    /** The front element gets a new value of the same key. */
    method Replace(el: Element<C>, entry: Entry<C>)
      requires Linked() && ll != [] && ll[0] == el && el.value.key == entry.key
      modifies el
      ensures Linked() && View() == [entry] + old(View())[1..]
    {
      el.value := entry;
      assert forall i :: 1 <= i < |ll| ==> ll[i] != el;
    }

    method PushFront(entry: Entry<C>)
      requires Linked() && entry.key !in items
      modifies this`ll, this`items
      ensures Linked() && |ll| == |old(ll)| + 1 && View() == [entry] + old(View()) && fresh(ll[0]) && ll[1..] == old(ll)
    {
      hide Values;
      var el := new Element(entry);
      ValuesAdded(ll, el);
      items := items[entry.key := el];
      ll := [el] + ll;
    }

    method RemoveBack()
      requires Linked() && ll != []
      modifies this`ll, this`items
      ensures Linked() && ll == old(ll)[..|old(ll)| - 1] && View() == old(View())[..|ll|]
    {
      var last := ll[|ll| - 1];
      ll := ll[..|ll| - 1];
      items := items - {last.value.key};
    }
  }

  lemma {:induction false} FindAt<C>(q: seq<Entry<C>>, i: nat)
    requires KeysDiffer(q) && i < |q|
    ensures Find(q, q[i].key) == Some(q[i]) && Without(q, q[i].key) == q[..i] + q[i + 1..]
  {
    if i == 0 {
      WithoutNone(q[1..], q[0].key);
    } else {
      FindAt(q[1..], i - 1);
      assert q[1..][i - 1] == q[i];
      assert [q[0]] + (q[1..][..i - 1] + q[1..][i..]) == q[..i] + q[i + 1..];
    }
  }

  lemma {:induction false} WithoutNone<C>(q: seq<Entry<C>>, key: string)
    requires forall i :: 0 <= i < |q| ==> q[i].key != key
    ensures Without(q, key) == q
  {
    if q != [] {
      WithoutNone(q[1..], key);
    }
  }

  lemma {:induction false} FindNone<C>(q: seq<Entry<C>>, key: string)
    requires forall i :: 0 <= i < |q| ==> q[i].key != key
    ensures Find(q, key) == None
  {
    if q != [] {
      FindNone(q[1..], key);
    }
  }
}
