/** The array operations the handlers apply to the record lists: `find` and
    `filter` keyed by `name` (soft-delete, restore) and `map` keyed by `id`
    (edit-save), with the counting facts the lifecycle proofs rely on. */
module RecordLists {
  import opened Outcomes
  import opened Records

  /** The names occurring in a list of records. */
  function Names(xs: seq<Record>): set<string> {
    set u | u in xs :: u.name
  }

  /** How many records of `xs` are called `name`. */
  function CountName(xs: seq<Record>, name: string): nat {
    if xs == [] then 0
    else (if xs[0].name == name then 1 else 0) + CountName(xs[1..], name)
  }

  /** The position of the first record called `name`, or `|xs|` when there
      is none (JavaScript's `findIndex`, with `|xs|` in place of -1). */
  function FirstIndex(xs: seq<Record>, name: string): (i: nat)
    ensures i <= |xs|
    ensures forall j :: 0 <= j < i ==> xs[j].name != name
    ensures i < |xs| ==> xs[i].name == name
    ensures i == |xs| <==> name !in Names(xs)
  {
    if xs == [] then 0
    else if xs[0].name == name then 0
    else
      var k := FirstIndex(xs[1..], name);
      assert Names(xs) == {xs[0].name} + Names(xs[1..]) by {
        assert xs == [xs[0]] + xs[1..];
      }
      1 + k
  }

  /** `xs.find(u => u.name === name)`: the first record called `name`, or
      `None` (JavaScript's `undefined`) when there is none. */
  function Find(xs: seq<Record>, name: string): (r: Option<Record>)
    ensures r.None? <==> name !in Names(xs)
    ensures r.Some? ==> r.value in xs && r.value.name == name
    ensures r.Some? ==> exists k :: 0 <= k < |xs| && xs[k] == r.value && name !in Names(xs[..k])
  {
    var i := FirstIndex(xs, name);
    if i < |xs| then
      assert name !in Names(xs[..i]);
      Some(xs[i])
    else None
  }

  /** `xs.filter(u => u.name !== name)`: no record called `name` is left,
      and the list shrinks by exactly the number of such records
      (`WithoutNameContents` says which records remain). */
  function WithoutName(xs: seq<Record>, name: string): (r: seq<Record>)
    ensures name !in Names(r)
    ensures |r| == |xs| - CountName(xs, name)
  {
    if xs == [] then []
    else
      var rest := WithoutName(xs[1..], name);
      if xs[0].name == name then rest else [xs[0]] + rest
  }

  /** The filter drops every record called `name` and keeps every other
      record exactly as often as it occurred. */
  lemma {:induction false} WithoutNameContents(xs: seq<Record>, name: string)
    ensures forall u :: multiset(WithoutName(xs, name))[u] == if u.name == name then 0 else multiset(xs)[u]
  {
    if xs != [] {
      WithoutNameContents(xs[1..], name);
      assert xs == [xs[0]] + xs[1..];
    }
  }

  /** `xs.map(u => u.id === id ? v : u)`: every record whose id is `id`
      becomes `v`, all others stay in place. */
  function ReplaceById(xs: seq<Record>, id: string, v: Record): (r: seq<Record>)
    ensures |r| == |xs|
    ensures forall i :: 0 <= i < |xs| ==> r[i] == if xs[i].id == id then v else xs[i]
  {
    if xs == [] then []
    else [if xs[0].id == id then v else xs[0]] + ReplaceById(xs[1..], id, v)
  }

  /** The ids of a list of records, in order. */
  function Ids(xs: seq<Record>): (r: seq<string>)
    ensures |r| == |xs|
    ensures forall i :: 0 <= i < |xs| ==> r[i] == xs[i].id
  {
    if xs == [] then [] else [xs[0].id] + Ids(xs[1..])
  }

  /** Counting distributes over concatenation. */
  lemma {:induction false} CountNameAppend(a: seq<Record>, b: seq<Record>, name: string)
    ensures CountName(a + b, name) == CountName(a, name) + CountName(b, name)
  {
    if a == [] {
      assert a + b == b;
    } else {
      assert (a + b)[1..] == a[1..] + b;
      CountNameAppend(a[1..], b, name);
    }
  }

  /** A name counts at least once exactly when it occurs. */
  lemma {:induction false} CountNamePositive(xs: seq<Record>, name: string)
    ensures CountName(xs, name) > 0 <==> name in Names(xs)
  {
    if xs != [] {
      assert xs == [xs[0]] + xs[1..];
      assert Names(xs) == {xs[0].name} + Names(xs[1..]);
      CountNamePositive(xs[1..], name);
    }
  }

  /** The filter keeps the survivors' relative order: filtering a
      concatenation filters each part in place. */
  lemma {:induction false} WithoutNameAppend(a: seq<Record>, b: seq<Record>, name: string)
    ensures WithoutName(a + b, name) == WithoutName(a, name) + WithoutName(b, name)
  {
    if a == [] {
      assert a + b == b;
    } else {
      assert (a + b)[0] == a[0];
      assert (a + b)[1..] == a[1..] + b;
      WithoutNameAppend(a[1..], b, name);
    }
  }

  /** Filtering out a name that does not occur changes nothing. */
  lemma {:induction false} WithoutAbsentName(xs: seq<Record>, name: string)
    requires name !in Names(xs)
    ensures WithoutName(xs, name) == xs
  {
    if xs != [] {
      assert xs == [xs[0]] + xs[1..];
      assert xs[0] in xs;
      assert name !in Names(xs[1..]) by {
        forall u | u in xs[1..] ensures u.name != name {
          assert u in xs;
        }
      }
      WithoutAbsentName(xs[1..], name);
    }
  }

  /** Appending a record under a name the list does not yet hold: that
      record is the first match, and filtering the name gives back the list. */
  lemma {:induction false} AppendFreshName(xs: seq<Record>, x: Record, name: string)
    requires name !in Names(xs)
    requires x.name == name
    ensures FirstIndex(xs + [x], name) == |xs|
    ensures WithoutName(xs + [x], name) == xs
  {
    var ys := xs + [x];
    var i := FirstIndex(ys, name);
    assert ys[|xs|] == x;
    WithoutNameAppend(xs, [x], name);
    WithoutAbsentName(xs, name);
    assert WithoutName([x], name) == [] by {
      assert [x][1..] == [];
    }
  }

  /** Filtering after filtering the same name changes nothing more. */
  lemma {:induction false} WithoutNameIdempotent(xs: seq<Record>, name: string)
    ensures WithoutName(WithoutName(xs, name), name) == WithoutName(xs, name)
  {
    WithoutAbsentName(WithoutName(xs, name), name);
  }

  /** A list is the part before position `k`, the record at `k`, and the rest. */
  lemma SplitAt(xs: seq<Record>, k: nat)
    requires k < |xs|
    ensures xs == xs[..k] + [xs[k]] + xs[k + 1..]
  {
  }

  /** When exactly one record is called `name`, the filter removes just that
      record and leaves the others in their order. */
  lemma {:induction false} UniqueNameFilter(xs: seq<Record>, name: string)
    requires CountName(xs, name) == 1
    ensures FirstIndex(xs, name) < |xs|
    ensures WithoutName(xs, name)
      == xs[..FirstIndex(xs, name)] + xs[FirstIndex(xs, name) + 1..]
  {
    CountNamePositive(xs, name);
    var k := FirstIndex(xs, name);
    var pre, x, post := xs[..k], xs[k], xs[k + 1..];
    SplitAt(xs, k);
    OnlyMatchSplit(pre, x, post, name);
    FilterAroundOnlyMatch(pre, x, post, name);
  }

  /** Filtering the name of the only matching record cuts just that record. */
  lemma {:induction false} FilterAroundOnlyMatch(pre: seq<Record>, x: Record, post: seq<Record>, name: string)
    requires x.name == name
    requires name !in Names(pre) && name !in Names(post)
    ensures WithoutName(pre + [x] + post, name) == pre + post
  {
    WithoutAbsentName(pre, name);
    WithoutAbsentName(post, name);
    WithoutNameAppend(pre + [x], post, name);
    AppendFreshName(pre, x, name);
  }

  /** If a list split around a record called `name` holds that name once,
      neither side holds it. */
  lemma {:induction false} OnlyMatchSplit(pre: seq<Record>, x: Record, post: seq<Record>, name: string)
    requires x.name == name
    requires CountName(pre + [x] + post, name) == 1
    ensures name !in Names(pre) && name !in Names(post)
  {
    CountNameAppend(pre + [x], post, name);
    CountNameAppend(pre, [x], name);
    assert CountName([x], name) == 1 by {
      assert [x][1..] == [];
    }
    CountNamePositive(pre, name);
    CountNamePositive(post, name);
  }

  /** The filter's count of a name: none left of `name`, every other name
      counted as before. */
  lemma {:induction false} CountWithoutName(xs: seq<Record>, name: string, n: string)
    ensures CountName(WithoutName(xs, name), n) == if n == name then 0 else CountName(xs, n)
  {
    if xs != [] {
      CountWithoutName(xs[1..], name, n);
      var rest := WithoutName(xs[1..], name);
      if xs[0].name != name {
        assert ([xs[0]] + rest)[1..] == rest;
      }
    }
  }

  /** Moving the first record called `name` from `src` to the end of `dst`,
      while filtering every such record out of `src`, adds no record that was
      not already in one of the two lists. */
  lemma MoveNeverInvents(src: seq<Record>, dst: seq<Record>, name: string)
    requires name in Names(src)
    ensures FirstIndex(src, name) < |src|
    ensures multiset(WithoutName(src, name)) + multiset(dst + [src[FirstIndex(src, name)]])
      <= multiset(src) + multiset(dst)
  {
    var x := src[FirstIndex(src, name)];
    assert x in src;
    WithoutNameContents(src, name);
    assert multiset(dst + [x]) == multiset(dst) + multiset{x};
    forall u ensures (multiset(WithoutName(src, name)) + multiset{x})[u] <= multiset(src)[u] {
      if u == x {
        assert multiset(src)[x] >= 1;
      }
    }
  }

  /** Replacing by id with a record that carries that same id leaves the
      list of ids as it was. */
  lemma ReplaceByIdKeepsIds(xs: seq<Record>, id: string, v: Record)
    requires v.id == id
    ensures Ids(ReplaceById(xs, id, v)) == Ids(xs)
  {
  }

  /** Saving the same server response twice has the effect of saving it once,
      provided the response carries the id it was saved under. */
  lemma ReplaceByIdIdempotent(xs: seq<Record>, id: string, v: Record)
    requires v.id == id
    ensures ReplaceById(ReplaceById(xs, id, v), id, v) == ReplaceById(xs, id, v)
  {
  }
}
