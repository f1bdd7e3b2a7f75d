/**
 The board store (`gameBoard` in js/script.js) and its win-line detector.

 The store is a passive map from square position to whatever value is written
 there; a key that is absent is an empty square (JavaScript's `undefined`).
 The map is generic in the stored value, as the source's store is: the game
 instantiates it with its two marks.
 */
module GameBoard {
  import opened Wrappers

  /** Number of squares on the 3x3 grid. */
  const Size: int := 9

  /** Squares are numbered 0..8, row by row. */
  predicate IsPosition(k: int) {
    0 <= k < Size
  }

  /** A square position, as the click handler receives it. */
  type Position = k: int | IsPosition(k)

  /** Every key of the store is a square position. */
  predicate WellFormed<V>(c: map<int, V>) {
    forall k :: k in c ==> IsPosition(k)
  }

  /** Every square holds a value. */
  predicate Full<V>(c: map<int, V>) {
    forall k :: 0 <= k < Size ==> k in c
  }

  /** Reading one square: `_contents[k]`, with `None` for `undefined`. */
  function Get<V>(c: map<int, V>, k: int): (r: Option<V>) {
    if k in c then Some(c[k]) else None
  }

  /** `setContents(key, value)`: overwrites one key and leaves every other key alone. */
  function SetContents<V>(c: map<int, V>, k: int, v: V): (r: map<int, V>)
    requires IsPosition(k)
    ensures Get(r, k) == Some(v)
    ensures forall j :: j != k ==> Get(r, j) == Get(c, j)
    ensures k in c ==> Length(r) == Length(c)
    ensures k !in c ==> Length(r) == Length(c) + 1
    ensures WellFormed(c) ==> WellFormed(r)
  {
    c[k := v]
  }

  /** Writing the value a key already holds leaves the store as it was. */
  lemma RewriteIsNoOp<V>(c: map<int, V>, k: int, v: V)
    requires IsPosition(k) && Get(c, k) == Some(v)
    ensures SetContents(c, k, v) == c
  {
    var r := SetContents(c, k, v);
    assert r.Keys == c.Keys;
  }

  /** `clearContents()`: the empty store, with no filled square and no win line. */
  function ClearContents<V(==)>(): (r: map<int, V>)
    ensures forall k :: Get(r, k) == None
    ensures WellFormed(r)
    ensures Length(r) == 0
    ensures IsTriplet(r) == None
  {
    map[]
  }

  /** `getContentsLength()`: the number of keys present. */
  function Length<V>(c: map<int, V>): (n: nat)
    ensures WellFormed(c) ==> n <= Size
    ensures WellFormed(c) ==> (n == Size <==> Full(c))
    ensures n == 0 <==> forall k :: Get(c, k) == None
  {
    EmptyCount(c);
    if WellFormed(c) then KeyCount(c); |c| else |c|
  }

  /** A store has no key exactly when its key count is zero. */
  lemma EmptyCount<V>(c: map<int, V>)
    ensures |c| == 0 <==> forall k :: Get(c, k) == None
  {
    if forall k :: Get(c, k) == None {
      forall k ensures k !in c.Keys {
        assert Get(c, k) == None;
      }
      assert c.Keys == {};
    }
    if |c| == 0 {
      assert c.Keys == {};
      forall k ensures Get(c, k) == None {
        assert k !in c.Keys;
      }
    }
  }

  /** The set of all square positions. */
  function Positions(): (ps: set<int>)
    ensures forall k :: k in ps <==> IsPosition(k)
    ensures |ps| == Size
  {
    {0, 1, 2, 3, 4, 5, 6, 7, 8}
  }

  lemma SubsetCard(a: set<int>, b: set<int>)
    requires a <= b
    ensures |a| <= |b|
    ensures a != b ==> |a| < |b|
  {
    assert b == a + (b - a);
    if b - a == {} {
      assert a == b;
    }
  }

  /** A well-formed store has at most nine keys, and exactly nine when it is full. */
  lemma KeyCount<V>(c: map<int, V>)
    requires WellFormed(c)
    ensures |c| <= Size
    ensures |c| == Size <==> Full(c)
  {
    var ps := Positions();
    forall k | k in c.Keys ensures k in ps {
      assert IsPosition(k);
    }
    SubsetCard(c.Keys, ps);
    if !Full(c) {
      var k :| IsPosition(k) && k !in c;
      assert k in ps && k !in c.Keys;
    } else {
      assert c.Keys == ps;
    }
  }

  /** The eight win lines in the order the detector tries them: rows, columns, diagonals. */
  const Lines: seq<seq<int>> :=
    [[0, 1, 2], [3, 4, 5], [6, 7, 8],
     [0, 3, 6], [1, 4, 7], [2, 5, 8],
     [0, 4, 8], [2, 4, 6]]

  /** A line is complete when its three squares all hold a value and the values are equal. */
  predicate Complete<V(==)>(c: map<int, V>, line: seq<int>) {
    && |line| == 3
    && line[0] in c && line[1] in c && line[2] in c
    && c[line[0]] == c[line[1]]
    && c[line[1]] == c[line[2]]
  }

  /** The detector's test on one line: the first square is defined and the
      three reads are pairwise `===` in sequence. */
  predicate Held<V(==)>(c: map<int, V>, a: int, b: int, d: int) {
    Get(c, a) != None && Get(c, a) == Get(c, b) && Get(c, b) == Get(c, d)
  }

  /** `isTriplet()`: the first complete line in the fixed order, or `None` (the source's `false`). */
  function IsTriplet<V(==)>(c: map<int, V>): (r: Option<seq<int>>)
    ensures r.Some? ==> r.value in Lines && Complete(c, r.value)
    ensures r.None? <==> forall i :: 0 <= i < |Lines| ==> !Complete(c, Lines[i])
  {
    // horizontals
    if Held(c, 0, 1, 2) then Some([0, 1, 2])
    else if Held(c, 3, 4, 5) then Some([3, 4, 5])
    else if Held(c, 6, 7, 8) then Some([6, 7, 8])
    // verticals
    else if Held(c, 0, 3, 6) then Some([0, 3, 6])
    else if Held(c, 1, 4, 7) then Some([1, 4, 7])
    else if Held(c, 2, 5, 8) then Some([2, 5, 8])
    // diagonals
    else if Held(c, 0, 4, 8) then Some([0, 4, 8])
    else if Held(c, 2, 4, 6) then Some([2, 4, 6])
    else None
  }

  /** `c` agrees with `c2` on every key `c` holds: `c2` is `c` with more squares filled. */
  predicate SubBoard<V(==)>(c: map<int, V>, c2: map<int, V>) {
    forall k :: k in c ==> k in c2 && c2[k] == c[k]
  }

  /** Filling more squares never removes a complete line, so a board with no
      triplet has none in any earlier stage of it either. */
  lemma NoTripletInSubBoard<V>(c: map<int, V>, c2: map<int, V>)
    requires SubBoard(c, c2)
    ensures IsTriplet(c2) == None ==> IsTriplet(c) == None
  {
  }

  /** Reference detector: the index of the first complete line at or after index `i`. */
  function FirstComplete<V(==)>(c: map<int, V>, i: nat): (r: Option<nat>)
    requires i <= |Lines|
    ensures r.Some? ==> i <= r.value < |Lines| && Complete(c, Lines[r.value])
    ensures r.Some? ==> forall j :: i <= j < r.value ==> !Complete(c, Lines[j])
    ensures r.None? <==> forall j :: i <= j < |Lines| ==> !Complete(c, Lines[j])
    decreases |Lines| - i
  {
    if i == |Lines| then None
    else if Complete(c, Lines[i]) then Some(i)
    else FirstComplete(c, i + 1)
  }

  /** The hand-unrolled detector agrees with the ordered scan over `Lines`. */
  lemma IsTripletIsFirstComplete<V>(c: map<int, V>)
    ensures IsTriplet(c) == match FirstComplete(c, 0)
                            case None => None
                            case Some(i) => Some(Lines[i])
  {
  }

  /** A run of `setContents` calls, applied in order. */
  function SetAll<V>(c: map<int, V>, writes: seq<(int, V)>): (r: map<int, V>)
    requires forall i :: 0 <= i < |writes| ==> IsPosition(writes[i].0)
    ensures WellFormed(c) ==> WellFormed(r)
    decreases |writes|
  {
    if |writes| == 0 then c
    else SetAll(SetContents(c, writes[0].0, writes[0].1), writes[1..])
  }

  /** The distinct positions a run of writes touches. */
  function Written<V>(writes: seq<(int, V)>): (ks: set<int>)
    decreases |writes|
  {
    if |writes| == 0 then {} else {writes[0].0} + Written(writes[1..])
  }

  /** A run of writes adds exactly the written positions to the keys. */
  lemma {:induction false} SetAllKeys<V>(c: map<int, V>, writes: seq<(int, V)>)
    requires forall i :: 0 <= i < |writes| ==> IsPosition(writes[i].0)
    ensures SetAll(c, writes).Keys == c.Keys + Written(writes)
    decreases |writes|
  {
    if |writes| > 0 {
      SetAllKeys(SetContents(c, writes[0].0, writes[0].1), writes[1..]);
    }
  }

  /** After `clearContents`, the count is the number of distinct positions written since. */
  lemma {:induction false} LengthCountsDistinctWrites<V>(writes: seq<(int, V)>)
    requires forall i :: 0 <= i < |writes| ==> IsPosition(writes[i].0)
    ensures Length(SetAll(map[], writes)) == |Written(writes)|
  {
    SetAllKeys(map[], writes);
    assert SetAll(map[], writes).Keys == Written(writes);
  }
}
