/**
 * What one batch of candidates does to the store. `Merge` follows the ingest
 * loop: each candidate is looked up in the store as it stands, earlier pushes
 * of the same batch included, and pushed at the end when its key is absent.
 * `Added` says the same declaratively: a candidate is appended exactly when
 * neither the stored records nor an earlier candidate carry its key.
 */
module Dedupe {
  import opened Tokens

  /** The store after the candidates `cs` have been offered, in order, to the store `ts`. */
  function Merge(ts: seq<Token>, cs: seq<Token>): (r: seq<Token>)
    ensures |ts| <= |r| <= |ts| + |cs|
    decreases |cs|
  {
    if cs == [] then ts
    else
      var m := Merge(ts, cs[..|cs| - 1]);
      var c := cs[|cs| - 1];
      if HasKey(m, KeyOf(c)) then m else m + [c]
  }

  /** Candidate `i` is new: its key is neither stored nor carried by an earlier candidate. */
  predicate IsNew(ts: seq<Token>, cs: seq<Token>, i: int)
    requires 0 <= i < |cs|
  {
    !HasKey(ts, KeyOf(cs[i])) && !HasKey(cs[..i], KeyOf(cs[i]))
  }

  /** The new candidates, in batch order. */
  function Added(ts: seq<Token>, cs: seq<Token>): seq<Token>
    decreases |cs|
  {
    if cs == [] then []
    else Added(ts, cs[..|cs| - 1]) + (if IsNew(ts, cs, |cs| - 1) then [cs[|cs| - 1]] else [])
  }

  /** Offering one more candidate is offering it to the store the earlier ones left. */
  lemma MergeSnoc(ts: seq<Token>, cs: seq<Token>, c: Token)
    ensures Merge(ts, cs + [c]) == Merge(Merge(ts, cs), [c])
  {
    assert (cs + [c])[..|cs|] == cs;
    assert [c][..0] == [];
  }

  /** `a` is `b` with some elements left out and the rest in their order. */
  predicate IsSubseq<T(==)>(a: seq<T>, b: seq<T>)
    decreases |b|
  {
    if a == [] then true
    else if b == [] then false
    else (a[|a| - 1] == b[|b| - 1] && IsSubseq(a[..|a| - 1], b[..|b| - 1])) || IsSubseq(a, b[..|b| - 1])
  }

  /** After a batch, the keys present are those stored before and those of the batch. */
  lemma {:induction false} AddedKeys(ts: seq<Token>, cs: seq<Token>, k: Key)
    ensures HasKey(ts + Added(ts, cs), k) <==> HasKey(ts, k) || HasKey(cs, k)
    decreases |cs|
  {
    if cs == [] {
      assert ts + Added(ts, cs) == ts;
    } else {
      var init := cs[..|cs| - 1];
      var c := cs[|cs| - 1];
      var a := Added(ts, init);
      AddedKeys(ts, init, k);
      assert cs == init + [c];
      HasKeyAppend(init, [c], k);
      if IsNew(ts, cs, |cs| - 1) {
        assert ts + Added(ts, cs) == (ts + a) + [c];
        HasKeyAppend(ts + a, [c], k);
      } else {
        assert ts + Added(ts, cs) == ts + a;
        AddedKeys(ts, init, KeyOf(c));
      }
    }
  }

  /**
   * The loop only appends: the store after a batch is the old store followed
   * by exactly the new candidates, in batch order.
   */
  lemma {:induction false} MergeAppends(ts: seq<Token>, cs: seq<Token>)
    ensures Merge(ts, cs) == ts + Added(ts, cs)
    decreases |cs|
  {
    if cs != [] {
      var init := cs[..|cs| - 1];
      MergeAppends(ts, init);
      AddedKeys(ts, init, KeyOf(cs[|cs| - 1]));
    }
  }

  /** The appended records are candidates of the batch, in the batch's order. */
  lemma {:induction false} AddedInOrder(ts: seq<Token>, cs: seq<Token>)
    ensures IsSubseq(Added(ts, cs), cs)
    ensures forall t :: t in Added(ts, cs) ==> t in cs
    decreases |cs|
  {
    if cs != [] {
      var init := cs[..|cs| - 1];
      AddedInOrder(ts, init);
      var a := Added(ts, init);
      assert cs[..|cs| - 1] == init;
      if IsNew(ts, cs, |cs| - 1) {
        assert Added(ts, cs) == a + [cs[|cs| - 1]];
        assert Added(ts, cs)[..|Added(ts, cs)| - 1] == a;
      } else {
        assert Added(ts, cs) == a;
      }
    }
  }

  /** The appended records carry pairwise distinct keys, none of them stored before. */
  lemma {:induction false} AddedFresh(ts: seq<Token>, cs: seq<Token>)
    ensures KeysUnique(Added(ts, cs))
    ensures forall i :: 0 <= i < |Added(ts, cs)| ==> !HasKey(ts, KeyOf(Added(ts, cs)[i]))
    decreases |cs|
  {
    if cs != [] {
      var init := cs[..|cs| - 1];
      var c := cs[|cs| - 1];
      AddedFresh(ts, init);
      AddedInOrder(ts, init);
      var a := Added(ts, init);
      if IsNew(ts, cs, |cs| - 1) {
        forall i | 0 <= i < |a|
          ensures KeyOf(a[i]) != KeyOf(c)
        {
          assert a[i] in a;
          var j :| 0 <= j < |init| && init[j] == a[i];
        }
      }
    }
  }

  /** A batch never gives two records the same key. */
  lemma MergeKeepsKeysUnique(ts: seq<Token>, cs: seq<Token>)
    requires KeysUnique(ts)
    ensures KeysUnique(Merge(ts, cs))
  {
    MergeAppends(ts, cs);
    AddedFresh(ts, cs);
    var a := Added(ts, cs);
    var m := ts + a;
    forall i, j | 0 <= i < j < |m|
      ensures KeyOf(m[i]) != KeyOf(m[j])
    {
      if j >= |ts| && i < |ts| {
        assert KeyOf(m[i]) == KeyOf(ts[i]);
        assert !HasKey(ts, KeyOf(a[j - |ts|]));
      } else if i >= |ts| {
        assert m[i] == a[i - |ts|] && m[j] == a[j - |ts|];
      }
    }
  }

  /** After a batch, every candidate's key is in the store. */
  lemma MergeCovers(ts: seq<Token>, cs: seq<Token>)
    ensures forall i :: 0 <= i < |cs| ==> HasKey(Merge(ts, cs), KeyOf(cs[i]))
  {
    MergeAppends(ts, cs);
    forall i | 0 <= i < |cs|
      ensures HasKey(Merge(ts, cs), KeyOf(cs[i]))
    {
      AddedKeys(ts, cs, KeyOf(cs[i]));
    }
  }

  /** A batch whose keys are all stored already changes nothing. */
  lemma {:induction false} MergeKnown(ts: seq<Token>, cs: seq<Token>)
    requires forall i :: 0 <= i < |cs| ==> HasKey(ts, KeyOf(cs[i]))
    ensures Merge(ts, cs) == ts
    decreases |cs|
  {
    if cs != [] {
      MergeKnown(ts, cs[..|cs| - 1]);
    }
  }

  /** Re-running the same batch adds nothing. */
  lemma MergeIdempotent(ts: seq<Token>, cs: seq<Token>)
    ensures Merge(Merge(ts, cs), cs) == Merge(ts, cs)
  {
    MergeCovers(ts, cs);
    MergeKnown(Merge(ts, cs), cs);
  }

  /** Starting from unique keys, each key of the batch ends up held by exactly one record. */
  lemma MergeExactlyOnce(ts: seq<Token>, cs: seq<Token>)
    requires KeysUnique(ts)
    ensures forall i :: 0 <= i < |cs| ==> Count(Merge(ts, cs), KeyOf(cs[i])) == 1
  {
    MergeKeepsKeysUnique(ts, cs);
    MergeCovers(ts, cs);
    forall i | 0 <= i < |cs|
      ensures Count(Merge(ts, cs), KeyOf(cs[i])) == 1
    {
      CountUnique(Merge(ts, cs), KeyOf(cs[i]));
    }
  }

  /**
   * One candidate is skipped exactly when a stored record has both its
   * address and its source; otherwise it is pushed at the end.
   */
  lemma DedupeKey(ts: seq<Token>, c: Token)
    ensures Merge(ts, [c]) == ts <==>
      exists i :: 0 <= i < |ts| && ts[i].address == c.address && ts[i].dataSource == c.dataSource
    ensures Merge(ts, [c]) != ts ==> Merge(ts, [c]) == ts + [c]
  {
    assert [c][..0] == [];
  }

  /** A record of the other provider never blocks a candidate, whatever its address. */
  lemma OtherSourceDoesNotBlock(ts: seq<Token>, c: Token)
    requires forall i :: 0 <= i < |ts| ==> ts[i].dataSource != c.dataSource
    ensures Merge(ts, [c]) == ts + [c]
  {
    assert [c][..0] == [];
  }

  /** The keys present after two batches do not depend on which batch came first. */
  lemma MergeOrderKeys(ts: seq<Token>, xs: seq<Token>, ys: seq<Token>, k: Key)
    ensures HasKey(Merge(Merge(ts, xs), ys), k) <==> HasKey(Merge(Merge(ts, ys), xs), k)
  {
    MergeAppends(ts, xs);
    MergeAppends(ts, ys);
    MergeAppends(Merge(ts, xs), ys);
    MergeAppends(Merge(ts, ys), xs);
    AddedKeys(ts, xs, k);
    AddedKeys(ts, ys, k);
    AddedKeys(Merge(ts, xs), ys, k);
    AddedKeys(Merge(ts, ys), xs, k);
  }
}
