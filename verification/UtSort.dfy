/** The in-place merge sort of the application list (HASH_SRT). */
module UtSort {
  import opened Basics
  import opened StableSort
  import opened UtHandle

  /** The next-links of the elements lo..hi of s are those of the list s. */
  ghost predicate NextIntact(s: seq<Handle>, lo: nat, hi: nat)
    requires hi <= |s|
    reads s`next
  {
    forall i {:trigger s[i].next} :: lo <= i < hi ==> s[i].next == At(s, i + 1)
  }

  /** A list under construction: all links but the last next-link are in place. */
  ghost predicate Building(out: seq<Handle>)
    reads out`next, out`prev
  {
    && (forall i {:trigger out[i].prev} :: 0 <= i < |out| ==> out[i].prev == At(out, i - 1))
    && (forall i {:trigger out[i].next} :: 0 <= i < |out| - 1 ==> out[i].next == out[i + 1])
  }

  /** The elements lo..hi of s are not in out. */
  ghost predicate Apart(s: seq<Handle>, lo: nat, hi: nat, out: seq<Handle>)
    requires hi <= |s|
  {
    forall i :: lo <= i < hi ==> s[i] !in out
  }

  /** The elements of s may be relinked. */
  ghost predicate Within(s: seq<Handle>, region: set<Handle>) {
    forall i :: 0 <= i < |s| ==> s[i] in region
  }

  /** The state of a merge: s[i..qi] and s[j..] are still linked as in s, and all that was taken
      out of s so far is the list out from first to last. */
  ghost predicate Merging(s: seq<Handle>, i: nat, qi: nat, j: nat, out: seq<Handle>,
                          first: Handle?, last: Handle?, region: set<Handle>)
    reads region`next, region`prev
  {
    && Within(s, region) && Within(out, region)
    && i <= qi <= j <= |s|
    && NextIntact(s, i, qi) && NextIntact(s, j, |s|)
    && Apart(s, i, qi, out) && Apart(s, j, |s|, out)
    && Distinct(out) && Building(out)
    && first == At(out, 0) && last == At(out, |out| - 1)
  }

  /** Move s[i] or s[j] to the end of the list under construction. */
  method Move(ghost s: seq<Handle>, ghost i: nat, ghost qi: nat, ghost j: nat, ghost out: seq<Handle>,
              list: Handle?, tail: Handle?, e: Handle, ghost fromP: bool, ghost region: set<Handle>)
    returns (list': Handle)
    requires Distinct(s) && Merging(s, i, qi, j, out, list, tail, region)
    requires if fromP then i < qi && e == s[i] else j < |s| && e == s[j]
    modifies region`next, region`prev
    ensures list' == (out + [e])[0]
    ensures fromP ==> Merging(s, i + 1, qi, j, out + [e], list', e, region)
    ensures !fromP ==> Merging(s, i, qi, j + 1, out + [e], list', e, region)
  {
    if tail != null {
      tail.next := e;
      list' := list;
    } else {
      list' := e;
    }
    e.prev := tail;
  }

  ghost predicate FromFirst(cmp: Cmp<Handle>, s: seq<Handle>, i: nat, qi: nat, j: nat, qe: nat)
    requires i <= qi <= j <= qe <= |s|
  {
    i < qi && (j == qe || cmp(s[i], s[j]) <= 0)
  }

  ghost predicate FromSecond(cmp: Cmp<Handle>, s: seq<Handle>, i: nat, qi: nat, j: nat, qe: nat)
    requires i <= qi <= j <= qe <= |s|
  {
    j < qe && (i == qi || cmp(s[i], s[j]) > 0)
  }

  /** Taking the head of a run, seen on the sequence s that holds both runs. */
  lemma MergeStep(cmp: Cmp<Handle>, s: seq<Handle>, i: nat, qi: nat, j: nat, qe: nat)
    requires i <= qi <= j <= qe <= |s|
    ensures FromFirst(cmp, s, i, qi, j, qe) ==>
              Merge(cmp, s[i..qi], s[j..qe]) == [s[i]] + Merge(cmp, s[i + 1..qi], s[j..qe])
    ensures FromSecond(cmp, s, i, qi, j, qe) ==>
              Merge(cmp, s[i..qi], s[j..qe]) == [s[j]] + Merge(cmp, s[i..qi], s[j + 1..qe])
  {
    if i < qi {
      assert s[i..qi] == [s[i]] + s[i + 1..qi];
    }
    if j < qe {
      assert s[j..qe] == [s[j]] + s[j + 1..qe];
    }
  }

  /** What is in the list and what is still to be merged make up the goal. */
  ghost predicate Remaining(cmp: Cmp<Handle>, s: seq<Handle>, i: nat, qi: nat, j: nat, qe: nat,
                            out: seq<Handle>, goal: seq<Handle>)
    requires i <= qi <= j <= qe <= |s|
  {
    out + Merge(cmp, s[i..qi], s[j..qe]) == goal
  }

  lemma RemainingStep(cmp: Cmp<Handle>, s: seq<Handle>, i: nat, qi: nat, j: nat, qe: nat,
                      out: seq<Handle>, goal: seq<Handle>)
    requires i <= qi <= j <= qe <= |s|
    requires Remaining(cmp, s, i, qi, j, qe, out, goal)
    ensures FromFirst(cmp, s, i, qi, j, qe) ==> Remaining(cmp, s, i + 1, qi, j, qe, out + [s[i]], goal)
    ensures FromSecond(cmp, s, i, qi, j, qe) ==> Remaining(cmp, s, i, qi, j + 1, qe, out + [s[j]], goal)
  {
    MergeStep(cmp, s, i, qi, j, qe);
    if FromFirst(cmp, s, i, qi, j, qe) {
      var m := Merge(cmp, s[i + 1..qi], s[j..qe]);
      assert out + [s[i]] + m == out + ([s[i]] + m);
    } else if FromSecond(cmp, s, i, qi, j, qe) {
      var m := Merge(cmp, s[i..qi], s[j + 1..qe]);
      assert out + [s[j]] + m == out + ([s[j]] + m);
    }
  }

  /** Choose the next element and advance p or q past it. */
  method Pick(cmp: Cmp<Handle>, p: Handle?, q: Handle?, psize: nat, qsize: nat,
              ghost s: seq<Handle>, ghost i: nat, ghost qi: nat, ghost j: nat, ghost qe: nat)
    returns (e: Handle, p': Handle?, q': Handle?, psize': nat, qsize': nat)
    requires i <= qi <= j <= qe <= |s| && (i < qi || j < qe)
    requires NextIntact(s, i, qi) && NextIntact(s, j, |s|)
    requires psize == qi - i && (i < qi ==> p == s[i]) && q == At(s, j)
    requires qsize != 0 && q != null <==> j < qe
    ensures FromFirst(cmp, s, i, qi, j, qe) ==>
              e == s[i] && p' == At(s, i + 1) && q' == q && psize' == psize - 1 && qsize' == qsize
    ensures !FromFirst(cmp, s, i, qi, j, qe) ==>
              && FromSecond(cmp, s, i, qi, j, qe)
              && e == s[j] && p' == p && q' == At(s, j + 1) && psize' == psize && qsize' == qsize - 1
  {
    p', q', psize', qsize' := p, q, psize, qsize;
    if psize == 0 {
      e, q', qsize' := q, q.next, qsize - 1;
    } else if qsize == 0 || q == null {
      e, p', psize' := p, p.next, psize - 1;
    } else if cmp(p, q) <= 0 {
      e, p', psize' := p, p.next, psize - 1;
    } else {
      e, q', qsize' := q, q.next, qsize - 1;
    }
  }

  /** Merge the run of psize elements at p with the run of at most qsize elements at q, moving
      them from s to the end of the list under construction. */
  method MergeRuns(cmp: Cmp<Handle>, ghost s: seq<Handle>, ghost pi: nat, ghost qi: nat,
                   p0: Handle, q0: Handle?, psize0: nat, qsize0: nat,
                   list0: Handle?, tail0: Handle?, ghost out0: seq<Handle>, ghost region: set<Handle>)
    returns (q: Handle?, list: Handle?, tail: Handle?, ghost out: seq<Handle>, ghost qe: nat)
    requires Distinct(s) && pi < qi <= |s|
    requires psize0 == qi - pi && p0 == s[pi] && q0 == At(s, qi)
    requires Merging(s, pi, qi, qi, out0, list0, tail0, region)
    modifies region`next, region`prev
    ensures qe == (if qi + qsize0 < |s| then qi + qsize0 else |s|)
    ensures out == out0 + Merge(cmp, s[pi..qi], s[qi..qe])
    ensures q == At(s, qe)
    ensures Merging(s, qi, qi, qe, out, list, tail, region)
  {
    qe := if qi + qsize0 < |s| then qi + qsize0 else |s|;
    out, list, tail, q := out0, list0, tail0, q0;
    var p: Handle? := p0;
    var psize, qsize := psize0, qsize0;
    ghost var i, j := pi, qi;
    ghost var goal := out0 + Merge(cmp, s[pi..qi], s[qi..qe]);
    while psize != 0 || (qsize != 0 && q != null)
      invariant pi <= i <= qi <= j <= qe
      invariant psize == qi - i && qsize == qsize0 - (j - qi)
      invariant i < qi ==> p == s[i]
      invariant q == At(s, j)
      invariant Remaining(cmp, s, i, qi, j, qe, out, goal)
      invariant Merging(s, i, qi, j, out, list, tail, region)
      decreases psize + (qe - j)
    {
      RemainingStep(cmp, s, i, qi, j, qe, out, goal);
      ghost var fromP := FromFirst(cmp, s, i, qi, j, qe);
      var e;
      e, p, q, psize, qsize := Pick(cmp, p, q, psize, qsize, s, i, qi, j, qe);
      list := Move(s, i, qi, j, out, list, tail, e, fromP, region);
      out := out + [e];
      tail := e;
      i, j := if fromP then i + 1 else i, if fromP then j else j + 1;
    }
    assert Merge(cmp, s[qi..qi], s[qe..qe]) == [];
  }

  /** Walk over at most k elements from p. */
  method Advance(p: Handle, k: nat, ghost s: seq<Handle>, ghost pi: nat) returns (q: Handle?, psize: nat)
    requires 1 <= k && pi < |s| && p == s[pi] && NextIntact(s, pi, |s|)
    ensures psize == |Take(s[pi..], k)| && q == At(s, pi + psize)
  {
    q, psize := p, 0;
    var i := 0;
    while i < k
      invariant i <= k && psize == i && pi + i < |s| && q == s[pi + i]
    {
      psize := psize + 1;
      q := q.next;
      if q == null {
        break;
      }
      i := i + 1;
    }
  }

  lemma PassStep(cmp: Cmp<Handle>, s: seq<Handle>, pi: nat, qi: nat, qe: nat, k: nat)
    requires 1 <= k && pi < |s|
    requires qi == pi + |Take(s[pi..], k)| && qe == (if qi + k < |s| then qi + k else |s|)
    ensures pi < qi <= qe <= |s|
    ensures Pass(cmp, s[pi..], k) == Merge(cmp, s[pi..qi], s[qi..qe]) + Pass(cmp, s[qe..], k)
  {
    var r := s[pi..];
    assert Take(r, k) == s[pi..qi];
    assert Drop(r, k) == s[qi..];
    assert Take(Drop(r, k), k) == s[qi..qe];
    assert Drop(r, 2 * k) == s[qe..];
  }

  ghost predicate PassRemaining(cmp: Cmp<Handle>, s: seq<Handle>, pi: nat, k: nat, out: seq<Handle>)
    requires 1 <= k && pi <= |s|
  {
    out + Pass(cmp, s[pi..], k) == Pass(cmp, s, k)
  }

  lemma PassRemainingStep(cmp: Cmp<Handle>, s: seq<Handle>, pi: nat, qi: nat, qe: nat, k: nat,
                          out: seq<Handle>, out': seq<Handle>)
    requires 1 <= k && pi < |s| && PassRemaining(cmp, s, pi, k, out)
    requires qi == pi + |Take(s[pi..], k)| && qe == (if qi + k < |s| then qi + k else |s|)
    requires out' == out + Merge(cmp, s[pi..qi], s[qi..qe])
    ensures PassRemaining(cmp, s, qe, k, out')
    ensures qe == (if pi + 2 * k < |s| then pi + 2 * k else |s|)
  {
    PassStep(cmp, s, pi, qi, qe, k);
    Regroup(out, Merge(cmp, s[pi..qi], s[qi..qe]), Pass(cmp, s[qe..], k));
  }

  lemma PassRemainingEnds(cmp: Cmp<Handle>, s: seq<Handle>, k: nat, out: seq<Handle>)
    requires 1 <= k
    ensures PassRemaining(cmp, s, 0, k, [])
    ensures PassRemaining(cmp, s, |s|, k, out) <==> out == Pass(cmp, s, k)
  {
    assert s[0..] == s && s[|s|..] == [];
  }

  lemma Regroup(a: seq<Handle>, b: seq<Handle>, c: seq<Handle>)
    ensures a + (b + c) == a + b + c
  {
  }

  /** Find the two runs at p and merge them. */
  method MergeNext(cmp: Cmp<Handle>, ghost s: seq<Handle>, ghost pi: nat, p: Handle, k: nat,
                   list0: Handle?, tail0: Handle?, ghost out0: seq<Handle>, ghost region: set<Handle>)
    returns (q: Handle?, list: Handle?, tail: Handle?, ghost out: seq<Handle>, ghost qe: nat)
    requires 1 <= k && Distinct(s) && pi < |s| && p == s[pi]
    requires Merging(s, pi, pi, pi, out0, list0, tail0, region)
    requires PassRemaining(cmp, s, pi, k, out0)
    modifies region`next, region`prev
    ensures qe == (if pi + 2 * k < |s| then pi + 2 * k else |s|)
    ensures q == At(s, qe)
    ensures Merging(s, qe, qe, qe, out, list, tail, region)
    ensures PassRemaining(cmp, s, qe, k, out)
  {
    var psize;
    q, psize := Advance(p, k, s, pi);
    ghost var qi := pi + psize;
    q, list, tail, out, qe := MergeRuns(cmp, s, pi, qi, p, q, psize, k, list0, tail0, out0, region);
    PassRemainingStep(cmp, s, pi, qi, qe, k, out0, out);
  }

  /** Terminate the list under construction. */
  method Close(tail: Handle, ghost out: seq<Handle>)
    requires 0 < |out| && Distinct(out) && Building(out) && tail == out[|out| - 1]
    modifies tail`next
    ensures AppLinked(out)
  {
    tail.next := null;
  }

  /** Merge all neighbouring runs of length k. */
  method MergeAll(cmp: Cmp<Handle>, ghost s: seq<Handle>, head: Handle, k: nat, ghost region: set<Handle>)
    returns (list: Handle?, tail: Handle?, nmerges: nat, ghost out: seq<Handle>)
    requires 1 <= k && 0 < |s| && head == s[0] && Distinct(s)
    requires PassRemaining(cmp, s, 0, k, [])
    requires Merging(s, 0, 0, 0, [], null, null, region)
    modifies region`next, region`prev
    ensures PassRemaining(cmp, s, |s|, k, out)
    ensures Merging(s, |s|, |s|, |s|, out, list, tail, region)
    ensures nmerges <= 1 <==> |s| <= 2 * k
  {
    var p: Handle? := head;
    list, tail, nmerges, out := null, null, 0, [];
    ghost var pi := 0;
    while p != null
      invariant pi <= |s| && p == At(s, pi)
      invariant PassRemaining(cmp, s, pi, k, out)
      invariant Merging(s, pi, pi, pi, out, list, tail, region)
      invariant pi == 0 || 2 * k <= pi || pi == |s|
      invariant (nmerges == 0 <==> pi == 0) && (nmerges <= 1 <==> pi <= 2 * k)
      decreases |s| - pi
    {
      nmerges := nmerges + 1;
      p, list, tail, out, pi := MergeNext(cmp, s, pi, p, k, list, tail, out, region);
    }
  }

  /** One pass of merges over runs of length k. */
  method SortPass(cmp: Cmp<Handle>, ghost s: seq<Handle>, head: Handle, k: nat, ghost region: set<Handle>)
    returns (list: Handle?, tail: Handle?, nmerges: nat, ghost out: seq<Handle>)
    requires 1 <= k && 0 < |s| && head == s[0]
    requires Distinct(s) && AppLinked(s) && Within(s, region)
    modifies region`next, region`prev
    ensures out == Pass(cmp, s, k)
    ensures AppLinked(out) && Distinct(out) && Within(out, region)
    ensures list == out[0] && tail == out[|out| - 1]
    ensures nmerges <= 1 <==> |s| <= 2 * k
  {
    PassRemainingEnds(cmp, s, k, []);
    list, tail, nmerges, out := MergeAll(cmp, s, head, k, region);
    PassRemainingEnds(cmp, s, k, out);
    if tail != null {
      Close(tail, out);
    }
  }

  /** One unfolding of the merge sort. */
  lemma MergeSortStep(cmp: Cmp<Handle>, s: seq<Handle>, k: nat)
    requires 1 <= k
    ensures MergeSort(cmp, s, k) == if |s| <= 2 * k then Pass(cmp, s, k) else MergeSort(cmp, Pass(cmp, s, k), 2 * k)
  {
  }

  /** HASH_SRT on the list from head: passes with doubling run length until one merge was enough.
      The first run length is 1. Every counter stays within twice the number of elements, so 32
      bits hold it below 2^31. */
  method SortFrom(cmp: Cmp<Handle>, ghost s0: seq<Handle>, head: Handle, first: nat, ghost region: set<Handle>)
    returns (list: Handle?, tail: Handle?, ghost s: seq<Handle>)
    requires 0 < |s0| && head == s0[0] && 1 <= first <= |s0|
    requires Distinct(s0) && AppLinked(s0) && Within(s0, region)
    modifies region`next, region`prev
    ensures s == MergeSort(cmp, s0, first)
    ensures AppLinked(s) && Distinct(s)
    ensures list == s[0] && tail == s[|s| - 1]
  {
    ghost var goal := MergeSort(cmp, s0, first);
    var insize, looping := first, true;
    list, tail, s := head, null, s0;
    while looping
      invariant |s| == |s0| && Distinct(s) && AppLinked(s) && Within(s, region) && list == s[0]
      invariant 1 <= insize <= 2 * |s| && (looping ==> insize <= |s|)
      invariant looping ==> MergeSort(cmp, s, insize) == goal
      invariant !looping ==> s == goal && tail == s[|s| - 1]
      decreases looping, |s0| - insize
    {
      MergeSortStep(cmp, s, insize);
      var nmerges;
      list, tail, nmerges, s := SortPass(cmp, s, list, insize, region);
      if nmerges <= 1 {
        looping := false;
      }
      insize := insize * 2;
    }
  }

  method SortList(cmp: Cmp<Handle>, ghost s0: seq<Handle>, head: Handle, ghost region: set<Handle>)
    returns (list: Handle?, tail: Handle?, ghost s: seq<Handle>)
    requires 0 < |s0| && head == s0[0]
    requires Distinct(s0) && AppLinked(s0) && Within(s0, region)
    modifies region`next, region`prev
    ensures s == MergeSort(cmp, s0, 1)
    ensures AppLinked(s) && Distinct(s)
    ensures list == s[0] && tail == s[|s| - 1]
  {
    list, tail, s := SortFrom(cmp, s0, head, 1, region);
  }
}
