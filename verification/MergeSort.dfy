/** The bottom-up merge sort of models/view_rows.c (`merge_sort`) and models/charts.c
    (`merge_pass`, `stable_sort`): two copies of one algorithm. */
module MergeSorting {
  import opened BitStreams

  // ----- comparators

  /** A comparator that is a total preorder: `cmp(a, b) <= 0` reads "a goes no later than b". */
  ghost predicate Preorder<T(!new)>(cmp: (T, T) -> int)
  {
    && (forall a, b :: cmp(a, b) < 0 <==> cmp(b, a) > 0)
    && (forall a, b, c :: Chain(cmp, a, b, c))
  }

  ghost predicate Chain<T>(cmp: (T, T) -> int, a: T, b: T, c: T)
  {
    cmp(a, b) <= 0 && cmp(b, c) <= 0 ==> cmp(a, c) <= 0
  }

  ghost predicate Sorted<T>(s: seq<T>, cmp: (T, T) -> int) { forall i, j :: 0 <= i < j < |s| ==> cmp(s[i], s[j]) <= 0 }

  ghost function Own<T>(e: T, x: T, cmp: (T, T) -> int): seq<T> { if cmp(e, x) == 0 then [e] else [] }

  /** The elements that rank with `x`, in their order. */
  ghost function Class<T>(s: seq<T>, x: T, cmp: (T, T) -> int): seq<T>
  {
    if s == [] then [] else Own(s[0], x, cmp) + Class(s[1..], x, cmp)
  }

  /** A stable rearrangement: elements that rank the same keep their order. */
  ghost predicate Stable<T(!new)>(s: seq<T>, t: seq<T>, cmp: (T, T) -> int) { forall x :: Class(s, x, cmp) == Class(t, x, cmp) }

  lemma Ranks<T(!new)>(cmp: (T, T) -> int, a: T, b: T, c: T)
    requires Preorder(cmp)
    ensures cmp(a, a) == 0
    ensures cmp(a, b) == 0 <==> cmp(b, a) == 0
    ensures cmp(a, b) <= 0 && cmp(b, c) <= 0 ==> cmp(a, c) <= 0
    ensures cmp(a, b) < 0 && cmp(b, c) <= 0 ==> cmp(a, c) < 0
    ensures cmp(a, b) <= 0 && cmp(b, c) < 0 ==> cmp(a, c) < 0
  {
    assert Chain(cmp, a, b, c) && Chain(cmp, b, c, a) && Chain(cmp, c, a, b);
  }

  lemma {:induction false} ClassConcat<T>(s: seq<T>, t: seq<T>, x: T, cmp: (T, T) -> int)
    ensures Class(s + t, x, cmp) == Class(s, x, cmp) + Class(t, x, cmp)
  {
    hide Own;
    if s == [] {
      assert s + t == t;
    } else {
      assert (s + t)[0] == s[0] && (s + t)[1..] == s[1..] + t;
      ClassConcat(s[1..], t, x, cmp);
      Associative(Own(s[0], x, cmp), Class(s[1..], x, cmp), Class(t, x, cmp));
    }
  }

  /** A stable rearrangement has the same elements. */
  lemma StableIsPermutation<T(!new)>(s: seq<T>, t: seq<T>, cmp: (T, T) -> int)
    requires Preorder(cmp) && Stable(s, t, cmp)
    ensures multiset(s) == multiset(t)
  {
    forall x ensures multiset(s)[x] == multiset(t)[x] {
      Ranks(cmp, x, x, x);
      CountInClass(s, x, cmp);
      CountInClass(t, x, cmp);
    }
  }

  lemma {:induction false} CountInClass<T(!new)>(s: seq<T>, x: T, cmp: (T, T) -> int)
    requires cmp(x, x) == 0
    ensures multiset(s)[x] == multiset(Class(s, x, cmp))[x]
  {
    hide Own;
    if s != [] {
      CountInClass(s[1..], x, cmp);
      assert s == [s[0]] + s[1..];
      CountOwn(s[0], x, cmp);
    }
  }

  lemma CountOwn<T>(e: T, x: T, cmp: (T, T) -> int)
    requires cmp(x, x) == 0
    ensures multiset([e])[x] == multiset(Own(e, x, cmp))[x]
  {
  }

  /** Only one stable rearrangement is sorted: sorted and stable say all there is to say. */
  lemma {:induction false} SortedStableUnique<T(!new)>(s: seq<T>, t: seq<T>, cmp: (T, T) -> int)
    requires Preorder(cmp) && Sorted(s, cmp) && Sorted(t, cmp) && Stable(s, t, cmp)
    ensures s == t
    decreases |s|
  {
    hide Preorder, Class;
    StableIsPermutation(s, t, cmp);
    assert |multiset(s)| == |s| && |multiset(t)| == |t|;
    if s != [] {
      SameHead(s, t, cmp);
      forall x ensures Class(s[1..], x, cmp) == Class(t[1..], x, cmp) {
        SameTails(s, t, x, cmp);
      }
      SortedStableUnique(s[1..], t[1..], cmp);
    }
  }

  lemma SameTails<T>(s: seq<T>, t: seq<T>, x: T, cmp: (T, T) -> int)
    requires s != [] && t != [] && s[0] == t[0] && Class(s, x, cmp) == Class(t, x, cmp)
    ensures Class(s[1..], x, cmp) == Class(t[1..], x, cmp)
  {
    hide Own;
    Parts(Own(s[0], x, cmp), Class(s[1..], x, cmp));
    Parts(Own(t[0], x, cmp), Class(t[1..], x, cmp));
  }

  lemma SameHead<T(!new)>(s: seq<T>, t: seq<T>, cmp: (T, T) -> int)
    requires Preorder(cmp) && Sorted(s, cmp) && Sorted(t, cmp) && Stable(s, t, cmp) && s != [] && t != []
    ensures s[0] == t[0]
  {
    StableIsPermutation(s, t, cmp);
    FirstOfClass(s, t, cmp);
    FirstOfClass(t, s, cmp);
    assert cmp(s[0], s[0]) == 0 && cmp(t[0], s[0]) == 0;
    assert Class(s, s[0], cmp)[0] == s[0] && Class(t, s[0], cmp)[0] == t[0];
  }

  lemma FirstOfClass<T(!new)>(s: seq<T>, t: seq<T>, cmp: (T, T) -> int)
    requires Preorder(cmp) && Sorted(s, cmp) && s != [] && t != [] && multiset(s) == multiset(t)
    ensures cmp(s[0], t[0]) <= 0
  {
    Ranks(cmp, s[0], s[0], s[0]);
    assert t[0] in multiset(s);
    var i :| 0 <= i < |s| && s[i] == t[0];
  }

  // ----- merging

  /** The stable merge: the second sequence goes first only where it must. */
  ghost function Merged<T>(a: seq<T>, b: seq<T>, cmp: (T, T) -> int): (m: seq<T>)
    ensures |m| == |a| + |b|
  {
    if a == [] then b
    else if b == [] then a
    else if cmp(b[0], a[0]) < 0 then [b[0]] + Merged(a, b[1..], cmp)
    else [a[0]] + Merged(a[1..], b, cmp)
  }

  ghost predicate Below<T>(x: T, s: seq<T>, cmp: (T, T) -> int) { forall i :: 0 <= i < |s| ==> cmp(x, s[i]) <= 0 }

  lemma {:induction false} MergedBelow<T>(x: T, a: seq<T>, b: seq<T>, cmp: (T, T) -> int)
    requires Below(x, a, cmp) && Below(x, b, cmp)
    ensures Below(x, Merged(a, b, cmp), cmp)
    decreases |a| + |b|
  {
    if a != [] && b != [] {
      if cmp(b[0], a[0]) < 0 {
        MergedBelow(x, a, b[1..], cmp);
      } else {
        MergedBelow(x, a[1..], b, cmp);
      }
    }
  }

  lemma SortedCons<T>(e: T, s: seq<T>, cmp: (T, T) -> int)
    ensures Sorted([e] + s, cmp) <==> Below(e, s, cmp) && Sorted(s, cmp)
  {
    var t := [e] + s;
    assert forall i :: 0 <= i < |s| ==> t[i + 1] == s[i];
    if Sorted(t, cmp) {
      forall i | 0 <= i < |s| ensures cmp(e, s[i]) <= 0 {
        assert cmp(t[0], t[i + 1]) <= 0;
      }
      forall i, j | 0 <= i < j < |s| ensures cmp(s[i], s[j]) <= 0 {
        assert cmp(t[i + 1], t[j + 1]) <= 0;
      }
    }
  }

  lemma HeadBelow<T(!new)>(x: T, s: seq<T>, cmp: (T, T) -> int)
    requires Preorder(cmp) && Sorted(s, cmp) && s != [] && cmp(x, s[0]) <= 0
    ensures Below(x, s, cmp)
  {
    hide Preorder;
    forall i | 0 <= i < |s| ensures cmp(x, s[i]) <= 0 {
      Ranks(cmp, x, s[0], s[i]);
    }
  }

  lemma {:induction false} MergedSorted<T(!new)>(a: seq<T>, b: seq<T>, cmp: (T, T) -> int)
    requires Preorder(cmp) && Sorted(a, cmp) && Sorted(b, cmp)
    ensures Sorted(Merged(a, b, cmp), cmp)
    decreases |a| + |b|
  {
    hide Preorder;
    if a != [] && b != [] {
      Ranks(cmp, a[0], a[0], a[0]);
      Ranks(cmp, b[0], a[0], b[0]);
      Ranks(cmp, b[0], b[0], b[0]);
      if cmp(b[0], a[0]) < 0 {
        HeadBelow(b[0], a, cmp);
        HeadBelow(b[0], b, cmp);
        MergedSorted(a, b[1..], cmp);
        MergedBelow(b[0], a, b[1..], cmp);
      } else {
        NotLess(cmp, b[0], a[0]);
        HeadBelow(a[0], a, cmp);
        HeadBelow(a[0], b, cmp);
        MergedSorted(a[1..], b, cmp);
        MergedBelow(a[0], a[1..], b, cmp);
      }
    }
  }

  lemma NotLess<T(!new)>(cmp: (T, T) -> int, a: T, b: T)
    requires Preorder(cmp)
    ensures cmp(a, b) >= 0 <==> cmp(b, a) <= 0
  {
  }

  lemma {:induction false} ClassEmpty<T(!new)>(s: seq<T>, y: T, x: T, cmp: (T, T) -> int)
    requires Preorder(cmp) && cmp(y, x) == 0 && forall i :: 0 <= i < |s| ==> cmp(y, s[i]) < 0
    ensures Class(s, x, cmp) == []
  {
    hide Preorder;
    if s != [] {
      Ranks(cmp, y, s[0], x);
      assert forall i :: 0 <= i < |s[1..]| ==> s[1..][i] == s[i + 1];
      ClassEmpty(s[1..], y, x, cmp);
    }
  }

  /** Merging sorted sequences keeps the order of what ranks the same, the first before the second. */
  lemma {:induction false} MergedStable<T(!new)>(a: seq<T>, b: seq<T>, x: T, cmp: (T, T) -> int)
    requires Preorder(cmp) && Sorted(a, cmp) && Sorted(b, cmp)
    ensures Class(Merged(a, b, cmp), x, cmp) == Class(a, x, cmp) + Class(b, x, cmp)
    decreases |a| + |b|
  {
    hide Preorder, Own;
    if a != [] && b != [] {
      if cmp(b[0], a[0]) < 0 {
        MergedStable(a, b[1..], x, cmp);
        PrecedesClass(b[0], a, x, cmp);
        Associative(Own(b[0], x, cmp), Class(a, x, cmp), Class(b[1..], x, cmp));
        Associative(Class(a, x, cmp), Own(b[0], x, cmp), Class(b[1..], x, cmp));
      } else {
        MergedStable(a[1..], b, x, cmp);
        Associative(Own(a[0], x, cmp), Class(a[1..], x, cmp), Class(b, x, cmp));
      }
    }
  }

  /** What goes before all of `a` commutes with the class of `x` in it: one of the two is empty. */
  lemma PrecedesClass<T(!new)>(e: T, a: seq<T>, x: T, cmp: (T, T) -> int)
    requires Preorder(cmp) && Sorted(a, cmp) && a != [] && cmp(e, a[0]) < 0
    ensures Own(e, x, cmp) + Class(a, x, cmp) == Class(a, x, cmp) + Own(e, x, cmp)
  {
    hide Preorder, Class;
    if cmp(e, x) == 0 {
      forall i | 0 <= i < |a| ensures cmp(e, a[i]) < 0 {
        Ranks(cmp, e, a[0], a[i]);
      }
      ClassEmpty(a, e, x, cmp);
    }
  }

  /** What is left to merge of two adjacent stretches. */
  ghost function Rest<T>(s: seq<T>, i: nat, middle: nat, j: nat, to: nat, cmp: (T, T) -> int): seq<T>
    requires i <= middle && j <= to && middle <= |s| && to <= |s|
  {
    Merged(s[i..middle], s[j..to], cmp)
  }

  lemma RestLeft<T>(s: seq<T>, i: nat, middle: nat, j: nat, to: nat, cmp: (T, T) -> int)
    requires i < middle <= |s| && j < to <= |s| && cmp(s[j], s[i]) >= 0
    ensures Rest(s, i, middle, j, to, cmp) == [s[i]] + Rest(s, i + 1, middle, j, to, cmp)
  {
    assert s[i..middle][1..] == s[i + 1..middle] && s[i..middle] == [s[i]] + s[i + 1..middle];
    assert j < to ==> s[j..to][0] == s[j];
  }

  lemma RestRight<T>(s: seq<T>, i: nat, middle: nat, j: nat, to: nat, cmp: (T, T) -> int)
    requires i < middle <= |s| && j < to <= |s| && cmp(s[j], s[i]) < 0
    ensures Rest(s, i, middle, j, to, cmp) == [s[j]] + Rest(s, i, middle, j + 1, to, cmp)
  {
    assert s[j..to][1..] == s[j + 1..to] && s[j..to] == [s[j]] + s[j + 1..to];
    assert i < middle ==> s[i..middle][0] == s[i];
  }

  /** Elements `i` to `end` of one array copied to places `k` on of another. */
  method Copy<T>(source: array<T>, i: nat, end: nat, target: array<T>, k: nat)
    requires i <= end <= source.Length && k + (end - i) <= target.Length && source != target
    modifies target
    ensures target[..] == old(target[..k]) + source[i..end] + old(target[k + (end - i)..])
  {
    for n := 0 to end - i
      invariant forall m :: 0 <= m < target.Length ==>
        target[m] == if k <= m < k + n then source[i + (m - k)] else old(target[m])
    {
      target[k + n] := source[i + n];
    }
  }

  /** The first loop of `merge_pass`: until one of the two stretches runs out. */
  method MergeHeads<T>(base: array<T>, temp: array<T>, from: nat, middle: nat, to: nat, cmp: (T, T) -> int)
    returns (i: nat, j: nat)
    requires from <= middle <= to <= base.Length && to <= temp.Length && base != temp
    modifies temp
    ensures from <= i <= middle <= j <= to && (i == middle || j == to)
    ensures Rest(base[..], from, middle, middle, to, cmp) == temp[from..i + (j - middle)] + Rest(base[..], i, middle, j, to, cmp)
  {
    hide Rest, Merged;
    i, j := from, middle;
    var k := from;
    ghost var s, done: seq<T> := base[..], [];
    while i < middle && j < to
      invariant from <= i <= middle <= j <= to && k == i + (j - middle) && done == temp[from..k]
      invariant Rest(s, from, middle, middle, to, cmp) == done + Rest(s, i, middle, j, to, cmp)
    {
      if cmp(base[j], base[i]) < 0 {
        RestRight(s, i, middle, j, to, cmp);
        temp[k] := base[j];
        j := j + 1;
      } else {
        RestLeft(s, i, middle, j, to, cmp);
        temp[k] := base[i];
        i := i + 1;
      }
      done := done + [temp[k]];
      k := k + 1;
    }
  }

  /** All the loops of `merge_pass`, into `temp`. */
  method MergeInto<T>(base: array<T>, temp: array<T>, from: nat, middle: nat, to: nat, cmp: (T, T) -> int)
    requires from <= middle <= to <= base.Length && to <= temp.Length && base != temp
    modifies temp
    ensures temp[from..to] == Merged(base[from..middle], base[middle..to], cmp)
  {
    hide Rest, Merged;
    ghost var s := base[..];
    WholeRest(s, from, middle, to, cmp);
    var i, j := MergeHeads(base, temp, from, middle, to, cmp);
    var k := i + (j - middle);
    ghost var done := temp[from..k];
    RestOne(s, i, middle, j, to, cmp);
    Copy(base, i, middle, temp, k);
    Copy(base, j, to, temp, k + (middle - i));
    assert temp[from..to] == done + (s[i..middle] + s[j..to]);
    assert s[from..middle] == base[from..middle] && s[middle..to] == base[middle..to];
  }

  /** `merge_pass`: two adjacent stretches merged through `temp`. */
  method MergePass<T>(base: array<T>, temp: array<T>, from: nat, middle: nat, to: nat, cmp: (T, T) -> int)
    requires from <= middle <= to <= base.Length && to <= temp.Length && base != temp
    modifies base, temp
    ensures base[..] == old(base[..from] + Merged(base[from..middle], base[middle..to], cmp) + base[to..])
  {
    hide Merged;
    MergeInto(base, temp, from, middle, to, cmp);
    Copy(temp, from, to, base, from);
  }

  lemma RestOne<T>(s: seq<T>, i: nat, middle: nat, j: nat, to: nat, cmp: (T, T) -> int)
    requires i <= middle <= |s| && j <= to <= |s| && (i == middle || j == to)
    ensures Rest(s, i, middle, j, to, cmp) == s[i..middle] + s[j..to]
  {
  }

  lemma WholeRest<T>(s: seq<T>, from: nat, middle: nat, to: nat, cmp: (T, T) -> int)
    requires from <= middle <= to <= |s|
    ensures Rest(s, from, middle, middle, to, cmp) == Merged(s[from..middle], s[middle..to], cmp)
  {
  }

  // ----- the passes

  /** Sorted stretches of `width` elements; the last may be shorter. */
  ghost predicate Pieces<T>(pieces: seq<seq<T>>, width: nat, cmp: (T, T) -> int)
  {
    forall k :: 0 <= k < |pieces| ==>
      Sorted(pieces[k], cmp) && 0 < |pieces[k]| <= width && (k < |pieces| - 1 ==> |pieces[k]| == width)
  }

  lemma OneMore<T>(done: seq<seq<T>>, m: seq<T>, width: nat, cmp: (T, T) -> int)
    requires Pieces(done, width, cmp) && (forall k :: 0 <= k < |done| ==> |done[k]| == width)
    requires Sorted(m, cmp) && 0 < |m| <= width
    ensures Pieces(done + [m], width, cmp)
  {
  }

  /** Merging the next two pieces. */
  lemma MergeNext<T(!new)>(s: seq<T>, done: seq<seq<T>>, todo: seq<seq<T>>, width: nat, cmp: (T, T) -> int, from: nat, middle: nat, to: nat)
    requires Preorder(cmp) && 1 < |todo| && Pieces(todo, width, cmp) && s == Flat(done) + Flat(todo)
    requires Pieces(done, 2 * width, cmp) && forall k :: 0 <= k < |done| ==> |done[k]| == 2 * width
    requires from == |Flat(done)| && middle == from + width && to == if from + 2 * width < |s| then from + 2 * width else |s|
    ensures from <= middle <= to <= |s|
    ensures var done1, todo1 := done + [Merged(s[from..middle], s[middle..to], cmp)], todo[2..];
      var s1 := s[..from] + Merged(s[from..middle], s[middle..to], cmp) + s[to..];
      && s1 == Flat(done1) + Flat(todo1) && Stable(s1, s, cmp)
      && Pieces(done1, 2 * width, cmp) && Pieces(todo1, width, cmp)
      && to == |Flat(done1)| && (todo1 != [] ==> forall k :: 0 <= k < |done1| ==> |done1[k]| == 2 * width)
  {
    hide Preorder, Merged, Sorted, Stable, Pieces, Flat;
    var a, b := todo[0], todo[1];
    TwoPieces(todo, width, cmp);
    NextStretches(s, Flat(done), a, b, Flat(todo[2..]));
    var m := Merged(a, b, cmp);
    MergedSorted(a, b, cmp);
    FlatConcat(done, [m]);
    OneFlat(m);
    OneMore(done, m, 2 * width, cmp);
    MergedInside(Flat(done), a, b, Flat(todo[2..]), cmp);
  }

  lemma TwoPieces<T(!new)>(todo: seq<seq<T>>, width: nat, cmp: (T, T) -> int)
    requires 1 < |todo| && Pieces(todo, width, cmp)
    ensures Sorted(todo[0], cmp) && Sorted(todo[1], cmp) && |todo[0]| == width && 0 < |todo[1]| <= width && (2 < |todo| ==> |todo[1]| == width)
    ensures |todo| == 2 ==> Flat(todo[2..]) == []
    ensures 2 < |todo| ==> 0 < |Flat(todo[2..])|
    ensures Pieces(todo[2..], width, cmp) && Flat(todo) == todo[0] + (todo[1] + Flat(todo[2..]))
  {
    assert todo[1..][1..] == todo[2..];
  }

  lemma NextStretches<T>(s: seq<T>, before: seq<T>, a: seq<T>, b: seq<T>, after: seq<T>)
    requires s == before + (a + (b + after))
    ensures var from, middle, to := |before|, |before| + |a|, |before| + |a| + |b|;
      s[..from] == before && s[from..middle] == a && s[middle..to] == b && s[to..] == after
    ensures s == before + (a + b) + after
  {
  }

  lemma MergedInside<T(!new)>(before: seq<T>, a: seq<T>, b: seq<T>, after: seq<T>, cmp: (T, T) -> int)
    requires Preorder(cmp) && Sorted(a, cmp) && Sorted(b, cmp)
    ensures Stable(before + Merged(a, b, cmp) + after, before + (a + b) + after, cmp)
  {
    hide Preorder, Merged, Sorted, Class;
    var m := Merged(a, b, cmp);
    forall x ensures Class(before + m + after, x, cmp) == Class(before + (a + b) + after, x, cmp) {
      MergedStable(a, b, x, cmp);
      ClassConcat(a, b, x, cmp);
      ClassConcat(before, m, x, cmp);
      ClassConcat(before, a + b, x, cmp);
      ClassConcat(before + m, after, x, cmp);
      ClassConcat(before + (a + b), after, x, cmp);
    }
  }

  lemma {:induction false} Singles<T(!new)>(s: seq<T>, cmp: (T, T) -> int) returns (pieces: seq<seq<T>>)
    ensures Pieces(pieces, 1, cmp) && Flat(pieces) == s
  {
    if s == [] {
      pieces := [];
    } else {
      var more := Singles(s[1..], cmp);
      pieces := [[s[0]]] + more;
      assert pieces[1..] == more;
    }
  }

  lemma WiderPieces<T(!new)>(done: seq<seq<T>>, todo: seq<seq<T>>, width: nat, cmp: (T, T) -> int)
    requires Pieces(done, 2 * width, cmp) && Pieces(todo, width, cmp) && |todo| <= 1
    requires todo != [] ==> forall k :: 0 <= k < |done| ==> |done[k]| == 2 * width
    ensures Pieces(done + todo, 2 * width, cmp)
  {
  }

  /** A single piece is the whole, sorted. */
  lemma OnePiece<T(!new)>(pieces: seq<seq<T>>, width: nat, s: seq<T>, cmp: (T, T) -> int)
    requires Pieces(pieces, width, cmp) && Flat(pieces) == s && |s| <= width
    ensures Sorted(s, cmp)
  {
    HowMany(pieces, width, cmp);
    if |pieces| == 1 {
      assert Flat(pieces) == pieces[0] + Flat([]);
    }
  }

  lemma {:induction false} HowMany<T(!new)>(pieces: seq<seq<T>>, width: nat, cmp: (T, T) -> int)
    requires Pieces(pieces, width, cmp)
    ensures |pieces| <= 1 <==> |Flat(pieces)| <= width
    ensures pieces == [] <==> |Flat(pieces)| == 0
  {
    if 1 < |pieces| {
      TwoPieces(pieces, width, cmp);
      assert Flat(pieces) == pieces[0] + Flat(pieces[1..]) && Flat(pieces[1..]) == pieces[1] + Flat(pieces[1..][1..]);
    } else if |pieces| == 1 {
      assert Flat(pieces) == pieces[0] + Flat([]);
    }
  }

  lemma NoPieces<T(!new)>(width: nat, cmp: (T, T) -> int)
    ensures Pieces([], width, cmp) && Flat<T>([]) == []
  {
  }

  /** One pass over the pieces of `width` elements makes them pieces of twice as many. */
  method Pass<T(!new)>(items: array<T>, temp: array<T>, width: nat, cmp: (T, T) -> int, ghost pieces: seq<seq<T>>)
    returns (ghost wider: seq<seq<T>>)
    requires Preorder(cmp) && 0 < width && Pieces(pieces, width, cmp) && Flat(pieces) == items[..]
    requires items != temp && items.Length <= temp.Length
    modifies items, temp
    ensures Pieces(wider, 2 * width, cmp) && Flat(wider) == items[..]
    ensures Stable(items[..], old(items[..]), cmp)
  {
    hide Preorder, Merged, Sorted, Pieces, Class, Flat;
    var from, count := 0, items.Length;
    ghost var done, todo: seq<seq<T>> := [], pieces;
    NoPieces(2 * width, cmp);
    while from + width < count
      invariant Pieces(done, 2 * width, cmp) && Pieces(todo, width, cmp) && items[..] == Flat(done) + Flat(todo)
      invariant todo == [] ==> count <= from
      invariant todo != [] ==> from == |Flat(done)| && forall k :: 0 <= k < |done| ==> |done[k]| == 2 * width
      invariant Stable(items[..], old(items[..]), cmp)
    {
      var middle, to := from + width, if from + 2 * width < count then from + 2 * width else count;
      HowMany(todo, width, cmp);
      MergeNext(items[..], done, todo, width, cmp, from, middle, to);
      done, todo := done + [Merged(items[..][from..middle], items[..][middle..to], cmp)], todo[2..];
      SlicesOf(items, from, middle, to);
      MergePass(items, temp, from, middle, to, cmp);
      HowMany(todo, width, cmp);
      from := from + 2 * width;
    }
    HowMany(todo, width, cmp);
    WiderPieces(done, todo, width, cmp);
    FlatConcat(done, todo);
    wider := done + todo;
  }

  lemma SlicesOf<T>(a: array<T>, from: nat, middle: nat, to: nat)
    requires from <= middle <= to <= a.Length
    ensures a[..][from..middle] == a[from..middle] && a[..][middle..to] == a[middle..to]
    ensures a[..][..from] == a[..from] && a[..][to..] == a[to..]
  {
  }

  /** `merge_sort` and `stable_sort`. */
  method Sort<T(!new,0)>(items: array<T>, cmp: (T, T) -> int)
    requires Preorder(cmp)
    modifies items
    ensures Sorted(items[..], cmp) && Stable(items[..], old(items[..]), cmp)
  {
    hide Preorder, Sorted, Pieces, Class, Flat;
    var count := items.Length;
    ghost var pieces := Singles(items[..], cmp);
    if count < 2 {
      OnePiece(pieces, 1, items[..], cmp);
      return;
    }
    var temp := new T[count];
    var width := 1;
    while width < count
      invariant 0 < width && Pieces(pieces, width, cmp) && Flat(pieces) == items[..]
      invariant Stable(items[..], old(items[..]), cmp)
      modifies items, temp
    {
      pieces := Pass(items, temp, width, cmp, pieces);
      width := width * 2;
    }
    OnePiece(pieces, width, items[..], cmp);
  }

  // ----- sorting twice

  /** The first comparator decides, and the second where it does not. */
  function Then<T>(first: (T, T) -> int, second: (T, T) -> int): (T, T) -> int
  {
    (a, b) => if first(a, b) != 0 then first(a, b) else second(a, b)
  }

  lemma ThenIsPreorder<T(!new)>(first: (T, T) -> int, second: (T, T) -> int)
    requires Preorder(first) && Preorder(second)
    ensures Preorder(Then(first, second))
  {
    var cmp := Then(first, second);
    forall a, b, c ensures Chain(cmp, a, b, c) {
      Ranks(first, a, b, c);
      Ranks(first, b, c, a);
      Ranks(second, a, b, c);
    }
  }

  /** The classes of two comparators in turn are the classes of either, within the other's. */
  lemma {:induction false} ClassThen<T>(s: seq<T>, x: T, c1: (T, T) -> int, c2: (T, T) -> int)
    ensures Class(s, x, Then(c2, c1)) == Class(Class(s, x, c2), x, c1) == Class(Class(s, x, c1), x, c2)
  {
    if s != [] {
      ClassThen(s[1..], x, c1, c2);
      ClassConcat(Own(s[0], x, c2), Class(s[1..], x, c2), x, c1);
      ClassConcat(Own(s[0], x, c1), Class(s[1..], x, c1), x, c2);
      OwnThen(s[0], x, c1, c2);
    }
  }

  lemma OwnThen<T>(e: T, x: T, c1: (T, T) -> int, c2: (T, T) -> int)
    ensures Own(e, x, Then(c2, c1)) == Class(Own(e, x, c2), x, c1) == Class(Own(e, x, c1), x, c2)
  {
  }

  lemma ClassStep<T>(s: seq<T>, x: T, cmp: (T, T) -> int)
    requires s != []
    ensures Class(s, x, cmp) == if cmp(s[0], x) == 0 then [s[0]] + Class(s[1..], x, cmp) else Class(s[1..], x, cmp)
  {
  }

  lemma SortedTail<T>(s: seq<T>, cmp: (T, T) -> int)
    requires s != []
    ensures Sorted(s, cmp) <==> Below(s[0], s[1..], cmp) && Sorted(s[1..], cmp)
  {
    SortedCons(s[0], s[1..], cmp);
    assert s == [s[0]] + s[1..];
  }

  lemma {:induction false} BelowClass<T>(e: T, s: seq<T>, x: T, c1: (T, T) -> int, c2: (T, T) -> int)
    requires Below(e, s, c1)
    ensures Below(e, Class(s, x, c2), c1)
  {
    if s != [] {
      assert forall i :: 0 <= i < |s[1..]| ==> s[1..][i] == s[i + 1];
      BelowClass(e, s[1..], x, c1, c2);
      ClassStep(s, x, c2);
    }
  }

  lemma {:induction false} ClassSorted<T>(s: seq<T>, x: T, c1: (T, T) -> int, c2: (T, T) -> int)
    requires Sorted(s, c1)
    ensures Sorted(Class(s, x, c2), c1)
  {
    if s != [] {
      hide Sorted, Class, Below;
      ClassStep(s, x, c2);
      SortedTail(s, c1);
      ClassSorted(s[1..], x, c1, c2);
      BelowClass(s[0], s[1..], x, c1, c2);
      SortedCons(s[0], Class(s[1..], x, c2), c1);
    }
  }

  /** Two elements of a class stand in the class in their order. */
  lemma {:induction false} InClass<T>(s: seq<T>, x: T, c1: (T, T) -> int, c2: (T, T) -> int, i: nat, j: nat)
    requires i < j < |s| && c2(s[i], x) == 0 && c2(s[j], x) == 0 && Sorted(Class(s, x, c2), c1)
    ensures c1(s[i], s[j]) <= 0
  {
    hide Sorted, Class;
    ClassStep(s, x, c2);
    SortedCons(s[0], Class(s[1..], x, c2), c1);
    if i > 0 {
      InClass(s[1..], x, c1, c2, i - 1, j - 1);
    } else {
      ClassHolds(s[1..], x, c2, j - 1);
    }
  }

  lemma {:induction false} ClassHolds<T>(s: seq<T>, x: T, cmp: (T, T) -> int, j: nat)
    requires j < |s| && cmp(s[j], x) == 0
    ensures s[j] in Class(s, x, cmp)
  {
    if j > 0 {
      ClassHolds(s[1..], x, cmp, j - 1);
    }
  }

  /** Sorting by one comparator and then stably by another sorts by the second and, where it does
      not decide, by the first. */
  lemma TwoSorts<T(!new)>(s: seq<T>, s1: seq<T>, s2: seq<T>, c1: (T, T) -> int, c2: (T, T) -> int)
    requires Preorder(c1) && Preorder(c2)
    requires Sorted(s1, c1) && Stable(s1, s, c1) && Sorted(s2, c2) && Stable(s2, s1, c2)
    ensures Sorted(s2, Then(c2, c1)) && Stable(s2, s, Then(c2, c1))
  {
    hide Preorder, Class;
    forall x ensures Class(s2, x, Then(c2, c1)) == Class(s, x, Then(c2, c1)) {
      ClassThen(s2, x, c1, c2);
      ClassThen(s1, x, c1, c2);
      ClassThen(s, x, c1, c2);
    }
    forall i, j | 0 <= i < j < |s2| ensures Then(c2, c1)(s2[i], s2[j]) <= 0 {
      if c2(s2[i], s2[j]) == 0 {
        Ranks(c2, s2[j], s2[j], s2[j]);
        ClassSorted(s1, s2[j], c1, c2);
        assert Class(s2, s2[j], c2) == Class(s1, s2[j], c2);
        InClass(s2, s2[j], c1, c2, i, j);
      }
    }
  }
}
