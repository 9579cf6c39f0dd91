/** Facts about sequences that every component needs: concatenating a list of pieces,
    and keeping the last n elements. */
module Sequences {

  datatype Option<+T> = None | Some(value: T)

  lemma Reassociate<T>(x: seq<T>, y: seq<T>, z: seq<T>)
    ensures x + (y + z) == (x + y) + z
  {
  }

  /** All pieces laid end to end, in order. */
  function Flatten<T>(pieces: seq<seq<T>>): seq<T> {
    if pieces == [] then [] else pieces[0] + Flatten(pieces[1..])
  }

  lemma {:induction false} FlattenAppend<T>(a: seq<seq<T>>, b: seq<seq<T>>)
    ensures Flatten(a + b) == Flatten(a) + Flatten(b)
  {
    if a == [] {
      assert a + b == b;
    } else {
      FlattenAppend(a[1..], b);
      assert (a + b)[0] == a[0] && (a + b)[1..] == a[1..] + b;
      Reassociate(a[0], Flatten(a[1..]), Flatten(b));
    }
  }

  lemma FlattenSnoc<T>(a: seq<seq<T>>, x: seq<T>)
    ensures Flatten(a + [x]) == Flatten(a) + x
  {
    FlattenAppend(a, [x]);
    assert Flatten([x]) == x + Flatten([]);
  }

  /** Pieces of equal width: element j of piece i sits at position i*width + j. */
  lemma {:induction false} FlattenAt<T>(pieces: seq<seq<T>>, width: nat, i: nat, j: nat)
    requires forall p :: p in pieces ==> |p| == width
    requires i < |pieces| && j < width
    ensures |Flatten(pieces)| == |pieces| * width
    ensures 0 <= i * width + j < |Flatten(pieces)|
    ensures Flatten(pieces)[i * width + j] == pieces[i][j]
  {
    FlattenLength(pieces, width);
    if i == 0 {
    } else {
      FlattenAt(pieces[1..], width, i - 1, j);
      OneMore(i - 1, width);
    }
  }

  lemma OneMore(n: nat, each: nat)
    ensures (n + 1) * each == each + n * each
  {
  }

  lemma {:induction false} FlattenLength<T>(pieces: seq<seq<T>>, width: nat)
    requires forall p :: p in pieces ==> |p| == width
    ensures |Flatten(pieces)| == |pieces| * width
  {
    if pieces != [] {
      FlattenLength(pieces[1..], width);
      OneMore(|pieces[1..]|, width);
    }
  }

  function Listed<T>(o: Option<T>): seq<T> {
    match o case Some(x) => [x] case None => []
  }

  /** What f makes of each element; elements it makes nothing of are skipped. */
  function FilterMap<S, T>(f: S -> Option<T>, xs: seq<S>): (ys: seq<T>)
    ensures |ys| <= |xs|
  {
    if xs == [] then [] else Listed(f(xs[0])) + FilterMap(f, xs[1..])
  }

  lemma {:induction false} FilterMapAppend<S, T>(f: S -> Option<T>, a: seq<S>, b: seq<S>)
    ensures FilterMap(f, a + b) == FilterMap(f, a) + FilterMap(f, b)
  {
    if a == [] {
      assert a + b == b;
    } else {
      FilterMapAppend(f, a[1..], b);
      assert (a + b)[0] == a[0] && (a + b)[1..] == a[1..] + b;
      Reassociate(Listed(f(a[0])), FilterMap(f, a[1..]), FilterMap(f, b));
    }
  }

  lemma FilterMapSnoc<S, T>(f: S -> Option<T>, a: seq<S>, x: S)
    ensures FilterMap(f, a + [x]) == FilterMap(f, a) + Listed(f(x))
  {
    FilterMapAppend(f, a, [x]);
    assert FilterMap(f, [x]) == Listed(f(x)) + FilterMap(f, []);
  }

  /** As many of the new elements as fit behind those a queue already holds. */
  function Fitting<T>(queue: seq<T>, more: seq<T>, capacity: nat): seq<T> {
    if |queue| + |more| <= capacity then more
    else if |queue| >= capacity then []
    else more[..capacity - |queue|]
  }

  lemma FittingAppend<T>(queue: seq<T>, a: seq<T>, b: seq<T>, capacity: nat)
    requires |queue| <= capacity
    ensures var sent := Fitting(queue, a, capacity);
      Fitting(queue, a + b, capacity) == sent + Fitting(queue + sent, b, capacity)
  {
  }

  /** The last n elements, or everything when there are fewer. */
  function LastN<T>(s: seq<T>, n: nat): (r: seq<T>)
    ensures |r| == if |s| < n then |s| else n
    ensures r == s[|s| - |r|..]
  {
    if |s| <= n then s else s[|s| - n..]
  }
}
