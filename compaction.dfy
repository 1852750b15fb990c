/** Compaction of a fixed list of optional fields into the list of the present values, in
    field order. The card's `labels`, `references` and `external_providers` are each built by a
    run of `if let Some(v) = field { vec.push(v) }` statements; `Compact` is what such a run
    produces, stated once for all three. */
module Compaction {
  import opened Options

  /** The present values of `xs`, in order. */
  function Compact<T>(xs: seq<Option<T>>): seq<T>
  {
    if xs == [] then []
    else (match xs[0] case Some(v) => [v] case None => []) + Compact(xs[1..])
  }

  /** The number of present entries of `xs`. */
  function CountPresent<T>(xs: seq<Option<T>>): (n: nat)
    ensures n <= |xs|
  {
    if xs == [] then 0 else (if xs[0].Some? then 1 else 0) + CountPresent(xs[1..])
  }

  /** The compacted list has one element per present entry: it is never padded. */
  lemma {:induction false} CompactLength<T>(xs: seq<Option<T>>)
    ensures |Compact(xs)| == CountPresent(xs) <= |xs|
  {
    if xs != [] {
      CompactLength(xs[1..]);
    }
  }

  /** A value is in the compacted list exactly when some entry holds it. */
  lemma {:induction false} CompactMember<T>(xs: seq<Option<T>>, v: T)
    ensures v in Compact(xs) <==> Some(v) in xs
  {
    if xs != [] {
      CompactMember(xs[1..], v);
      assert xs == [xs[0]] + xs[1..];
    }
  }

  /** Compaction distributes over concatenation. */
  lemma {:induction false} CompactAppend<T>(xs: seq<Option<T>>, ys: seq<Option<T>>)
    ensures Compact(xs + ys) == Compact(xs) + Compact(ys)
    ensures CountPresent(xs + ys) == CountPresent(xs) + CountPresent(ys)
  {
    if xs == [] {
      assert xs + ys == ys;
    } else {
      var zs := xs + ys;
      assert zs != [] && zs[0] == xs[0];
      assert zs[1..] == xs[1..] + ys;
      CompactAppend(xs[1..], ys);
      assert Compact(zs) == Compact([zs[0]]) + Compact(zs[1..]) by {
        assert [zs[0]][1..] == [];
      }
      assert Compact(xs) == Compact([xs[0]]) + Compact(xs[1..]) by {
        assert [xs[0]][1..] == [];
      }
    }
  }

  /** Compacting one more entry appends its value, if it has one: the effect of one
      `if let Some(v) = field { vec.push(v) }`. */
  lemma CompactPrefixStep<T>(xs: seq<Option<T>>, k: nat)
    requires k < |xs|
    ensures Compact(xs[..k + 1]) == Compact(xs[..k]) + (match xs[k] case Some(v) => [v] case None => [])
  {
    assert xs[..k + 1] == xs[..k] + [xs[k]];
    CompactAppend(xs[..k], [xs[k]]);
    assert [xs[k]][1..] == [];
  }

  /** Compacting one more entry appends its compaction. */
  lemma CompactPrefixPush<T>(xs: seq<Option<T>>, k: nat)
    requires k < |xs|
    ensures Compact(xs[..k + 1]) == Compact(xs[..k]) + Compact([xs[k]])
  {
    assert xs[..k + 1] == xs[..k] + [xs[k]];
    CompactAppend(xs[..k], [xs[k]]);
  }

  /** One `if let Some(v) = field { vec.push(v) }`: the vector grows by the field's value
      when there is one, and is left as it is otherwise. */
  method PushPresent<T>(acc: seq<T>, field: Option<T>) returns (pushed: seq<T>)
    ensures pushed == acc + Compact([field])
    ensures |pushed| == |acc| + (if field.Some? then 1 else 0)
  {
    pushed := acc;
    if field.Some? {
      pushed := pushed + [field.value];
    }
    assert [field][1..] == [];
  }

  /** The value of the present entry `i` lands at the index given by the number of present
      entries before it: the compacted list keeps the field order. */
  lemma CompactRank<T>(xs: seq<Option<T>>, i: nat)
    requires i < |xs| && xs[i].Some?
    ensures CountPresent(xs[..i]) < |Compact(xs)|
    ensures Compact(xs)[CountPresent(xs[..i])] == xs[i].value
  {
    assert xs == xs[..i] + ([xs[i]] + xs[i + 1..]);
    CompactAppend(xs[..i], [xs[i]] + xs[i + 1..]);
    CompactAppend([xs[i]], xs[i + 1..]);
    CompactLength(xs[..i]);
    assert Compact([xs[i]]) == [xs[i].value] by {
      assert [xs[i]][1..] == [];
    }
  }

  /** Of two present entries, the earlier one has the smaller rank. */
  lemma CountPresentStrict<T>(xs: seq<Option<T>>, i: nat, j: nat)
    requires i < j <= |xs| && xs[i].Some?
    ensures CountPresent(xs[..i]) < CountPresent(xs[..j])
  {
    assert xs[..j] == xs[..i] + ([xs[i]] + xs[i + 1..j]);
    CompactAppend(xs[..i], [xs[i]] + xs[i + 1..j]);
    CompactAppend([xs[i]], xs[i + 1..j]);
    assert [xs[i]][1..] == [];
  }

  /** Two lists with the same present positions have the same count. */
  lemma {:induction false} SamePresence<A, B>(xs: seq<Option<A>>, ys: seq<Option<B>>)
    requires |xs| == |ys|
    requires forall k :: 0 <= k < |xs| ==> (xs[k].Some? <==> ys[k].Some?)
    ensures CountPresent(xs) == CountPresent(ys)
  {
    if xs != [] {
      SamePresence(xs[1..], ys[1..]);
    }
  }
}
