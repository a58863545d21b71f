/** Which modules carry data, and the order in which the decoder visits them
    (qrdump.py:110-145; ISO/IEC 18004:2006 section 6.7.3): two-column-wide
    strips swept from the bottom-right corner, alternately upwards and
    downwards, skipping the vertical timing column. */
module Layout {
  import opened Common

  type Coord = (int, int)  // (row, column)

  /** is_data: false on the three 8x8 finder corners, on the timing row and
      column, and on the 5x5 alignment pattern at rows/columns N-9..N-5. */
  predicate IsData(N: int, y: int, x: int)
  {
    if y <= 8 && x <= 8 then false
    else if y >= N - 8 && x <= 8 then false
    else if x >= N - 8 && y <= 8 then false
    else if y == 6 || x == 6 then false
    else if y >= N - 9 && y <= N - 5 && x >= N - 9 && x <= N - 5 then false
    else true
  }

  predicate InGrid(N: int, c: Coord) { 0 <= c.0 < N && 0 <= c.1 < N }

  /** The locations the generator yields from the state (y, x, direction) on:
      the loop of data_locations written as a recursive function. */
  function Walk(N: nat, y: int, x: int, direction: int): seq<Coord>
    requires direction == 1 || direction == -1
    requires -1 <= y <= N
    decreases x + 1, StripLeft(N, y, direction)
  {
    if x < 0 then []
    else if y < 0 then Walk(N, 0, x - 2, -direction)
    else if y >= N then Walk(N, N - 1, x - 2, -direction)
    else if x == 6 then Walk(N, y, 5, direction)
    else Yielded(N, y, x) + Walk(N, y + direction, x, direction)
  }

  /** What the generator yields at one row of a strip: the right-hand cell,
      then the left-hand one, each only if it carries data. */
  function Yielded(N: int, y: int, x: int): (r: seq<Coord>)
    ensures forall c :: c in r <==> (c == (y, x) && IsData(N, y, x)) || (c == (y, x - 1) && IsData(N, y, x - 1))
  {
    (if IsData(N, y, x) then [(y, x)] else []) + (if IsData(N, y, x - 1) then [(y, x - 1)] else [])
  }

  /** data_locations(N): everything the generator yields, in order. */
  function DataPath(N: nat): seq<Coord>
  {
    Walk(N, N - 1, N - 1, -1)
  }

  /** data_locations as the source writes it: a loop over (y, x, direction)
      that appends each yielded location. */
  method DataLocations(N: nat) returns (locs: seq<Coord>)
    ensures locs == DataPath(N)
  {
    var y, x, direction := N - 1, N - 1, -1;
    locs := [];
    while x >= 0
      invariant direction == 1 || direction == -1
      invariant -1 <= y <= N
      invariant locs + Walk(N, y, x, direction) == DataPath(N)
      decreases x + 1, StripLeft(N, y, direction)
    {
      if y < 0 {
        assert Walk(N, y, x, direction) == Walk(N, 0, x - 2, -direction);
        x := x - 2;
        direction := -direction;
        y := 0;
        continue;
      }
      if y >= N {
        assert Walk(N, y, x, direction) == Walk(N, N - 1, x - 2, -direction);
        x := x - 2;
        direction := -direction;
        y := N - 1;
        continue;
      }
      if x == 6 {
        assert Walk(N, y, x, direction) == Walk(N, y, 5, direction);
        x := 5;
        continue;
      }
      ghost var before := locs;
      if IsData(N, y, x) {
        locs := locs + [(y, x)];
      }
      if IsData(N, y, x - 1) {
        locs := locs + [(y, x - 1)];
      }
      assert locs == before + Yielded(N, y, x);
      ConcatAssoc(before, Yielded(N, y, x), Walk(N, y + direction, x, direction));
      y := y + direction;
    }
  }

  /** The states the traversal passes through: the right-hand column of the
      current strip is odd, or even and at least 6 (and 6 only right after a
      turn); y is just outside the grid only in the direction of travel. */
  predicate WalkState(N: int, y: int, x: int, direction: int)
  {
    && (direction == 1 || direction == -1)
    && -1 <= y <= N
    && (y == -1 ==> direction == -1)
    && (y == N ==> direction == 1)
    && -1 <= x < N
    && (x >= 0 ==> x >= 1 && (x % 2 == 1 || x >= 6))
    && (x == 6 ==> y == (if direction < 0 then N - 1 else 0))
  }

  /** The cells not yet passed: the rest of the current strip in the direction
      of travel, and every column left of the strip. */
  predicate Ahead(N: int, y: int, x: int, direction: int, c: Coord)
  {
    && 0 <= c.0 < N
    && 0 <= c.1
    && (|| ((c.1 == x || c.1 == x - 1) && (if direction < 0 then c.0 <= y else c.0 >= y))
        || c.1 < x - 1)
  }

  /** How far the walk still is from the end of its strip. */
  function StripLeft(N: int, y: int, direction: int): int
  {
    if direction < 0 then y + 1 else N - y
  }

  /** From any traversal state, the generator yields exactly the data cells
      still ahead of it. */
  lemma {:induction false} WalkMembers(N: nat, y: int, x: int, direction: int, c: Coord)
    requires WalkState(N, y, x, direction)
    ensures c in Walk(N, y, x, direction) <==> IsData(N, c.0, c.1) && Ahead(N, y, x, direction, c)
    decreases x + 1, StripLeft(N, y, direction), 1
  {
    if x < 0 {
    } else if y < 0 {
      MembersAtTop(N, x, c);
    } else if y >= N {
      MembersAtBottom(N, x, c);
    } else if x == 6 {
      MembersAtTiming(N, y, direction, c);
    } else {
      MembersAlong(N, y, x, direction, c);
    }
  }

  lemma {:induction false} MembersAtTop(N: nat, x: int, c: Coord)
    requires WalkState(N, -1, x, -1) && x >= 0
    ensures c in Walk(N, -1, x, -1) <==> IsData(N, c.0, c.1) && Ahead(N, -1, x, -1, c)
    decreases x + 1, 0, 0
  {
    assert Walk(N, -1, x, -1) == Walk(N, 0, x - 2, 1);
    TurnAtTop(N, x, c);
    WalkMembers(N, 0, x - 2, 1, c);
  }

  lemma {:induction false} MembersAtBottom(N: nat, x: int, c: Coord)
    requires WalkState(N, N, x, 1) && x >= 0
    ensures c in Walk(N, N, x, 1) <==> IsData(N, c.0, c.1) && Ahead(N, N, x, 1, c)
    decreases x + 1, 0, 0
  {
    assert Walk(N, N, x, 1) == Walk(N, N - 1, x - 2, -1);
    TurnAtBottom(N, x, c);
    WalkMembers(N, N - 1, x - 2, -1, c);
  }

  lemma {:induction false} MembersAtTiming(N: nat, y: int, direction: int, c: Coord)
    requires WalkState(N, y, 6, direction) && 0 <= y < N
    ensures c in Walk(N, y, 6, direction) <==> IsData(N, c.0, c.1) && Ahead(N, y, 6, direction, c)
    decreases 7, StripLeft(N, y, direction), 0
  {
    assert Walk(N, y, 6, direction) == Walk(N, y, 5, direction);
    SkipTiming(N, y, direction, c);
    WalkMembers(N, y, 5, direction, c);
  }

  lemma {:induction false} MembersAlong(N: nat, y: int, x: int, direction: int, c: Coord)
    requires WalkState(N, y, x, direction) && 0 <= y < N && 0 <= x && x != 6
    ensures c in Walk(N, y, x, direction) <==> IsData(N, c.0, c.1) && Ahead(N, y, x, direction, c)
    decreases x + 1, StripLeft(N, y, direction), 0
  {
    StepAlong(N, y, x, direction, c);
    WalkMembers(N, y + direction, x, direction, c);
    StepMembers(N, y, x, direction, c);
  }

  /** Leaving the top of a strip turns into the next strip, going down. */
  lemma TurnAtTop(N: nat, x: int, c: Coord)
    requires WalkState(N, -1, x, -1) && x >= 0
    ensures WalkState(N, 0, x - 2, 1)
    ensures Ahead(N, -1, x, -1, c) <==> Ahead(N, 0, x - 2, 1, c)
  {
  }

  /** Leaving the bottom of a strip turns into the next strip, going up. */
  lemma TurnAtBottom(N: nat, x: int, c: Coord)
    requires WalkState(N, N, x, 1) && x >= 0
    ensures WalkState(N, N - 1, x - 2, -1)
    ensures Ahead(N, N, x, 1, c) <==> Ahead(N, N - 1, x - 2, -1, c)
  {
  }

  /** Moving the strip from column 6 to column 5 passes over no data cell. */
  lemma SkipTiming(N: nat, y: int, direction: int, c: Coord)
    requires WalkState(N, y, 6, direction) && 0 <= y < N
    ensures WalkState(N, y, 5, direction)
    ensures IsData(N, c.0, c.1) && Ahead(N, y, 6, direction, c) <==> IsData(N, c.0, c.1) && Ahead(N, y, 5, direction, c)
  {
  }

  /** One row further along a strip: the two cells of the row are no longer
      ahead, everything else still is. */
  lemma StepAlong(N: nat, y: int, x: int, direction: int, c: Coord)
    requires WalkState(N, y, x, direction) && 0 <= y < N && 0 <= x && x != 6
    ensures WalkState(N, y + direction, x, direction)
    ensures Ahead(N, y, x, direction, c) <==> c == (y, x) || c == (y, x - 1) || Ahead(N, y + direction, x, direction, c)
  {
  }

  /** The cells yielded at one row, followed by the rest of the walk. */
  lemma StepMembers(N: nat, y: int, x: int, direction: int, c: Coord)
    requires WalkState(N, y, x, direction) && 0 <= y < N && 0 <= x && x != 6
    ensures c in Walk(N, y, x, direction) <==>
              (c == (y, x) && IsData(N, y, x)) || (c == (y, x - 1) && IsData(N, y, x - 1))
              || c in Walk(N, y + direction, x, direction)
  {
  }

  predicate Distinct(s: seq<Coord>)
  {
    forall i, j :: 0 <= i < j < |s| ==> s[i] != s[j]
  }

  /** No location is yielded twice. */
  lemma {:induction false} WalkDistinct(N: nat, y: int, x: int, direction: int)
    requires WalkState(N, y, x, direction)
    ensures Distinct(Walk(N, y, x, direction))
    decreases x + 1, StripLeft(N, y, direction), 1
  {
    if x < 0 {
    } else if y < 0 {
      assert Walk(N, y, x, direction) == Walk(N, 0, x - 2, -direction);
      TurnAtTop(N, x, (0, 0));
      WalkDistinct(N, 0, x - 2, -direction);
    } else if y >= N {
      assert Walk(N, y, x, direction) == Walk(N, N - 1, x - 2, -direction);
      TurnAtBottom(N, x, (0, 0));
      WalkDistinct(N, N - 1, x - 2, -direction);
    } else if x == 6 {
      assert Walk(N, y, x, direction) == Walk(N, y, 5, direction);
      SkipTiming(N, y, direction, (0, 0));
      WalkDistinct(N, y, 5, direction);
    } else {
      DistinctAlong(N, y, x, direction);
    }
  }

  lemma {:induction false} DistinctAlong(N: nat, y: int, x: int, direction: int)
    requires WalkState(N, y, x, direction) && 0 <= y < N && 0 <= x && x != 6
    ensures Distinct(Walk(N, y, x, direction))
    decreases x + 1, StripLeft(N, y, direction), 0
  {
    var a := if IsData(N, y, x) then [(y, x)] else [];
    var b := if IsData(N, y, x - 1) then [(y, x - 1)] else [];
    var tail := Walk(N, y + direction, x, direction);
    assert Walk(N, y, x, direction) == a + b + tail;
    ConcatAssoc(a, b, tail);
    StepAlong(N, y, x, direction, (0, 0));
    WalkDistinct(N, y + direction, x, direction);
    assert !Ahead(N, y + direction, x, direction, (y, x - 1));
    WalkMembers(N, y + direction, x, direction, (y, x - 1));
    DistinctPrefix(b, tail);
    assert !Ahead(N, y + direction, x, direction, (y, x));
    WalkMembers(N, y + direction, x, direction, (y, x));
    NotInAppend((y, x), b, tail);
    DistinctPrefix(a, b + tail);
  }

  /** Putting at most one new location in front keeps a sequence distinct. */
  lemma DistinctPrefix(a: seq<Coord>, s: seq<Coord>)
    requires |a| <= 1 && Distinct(s)
    requires a == [] || a[0] !in s
    ensures Distinct(a + s)
  {
    if |a| == 1 {
      forall i, j | 0 <= i < j < |a + s| ensures (a + s)[i] != (a + s)[j] {
        if i == 0 {
          assert (a + s)[j] == s[j - 1];
        } else {
          assert (a + s)[i] == s[i - 1] && (a + s)[j] == s[j - 1];
        }
      }
    } else {
      assert a + s == s;
    }
  }

  /** The data cells of an N x N symbol. */
  function DataCells(N: nat): set<Coord>
  {
    set y, x | 0 <= y < N && 0 <= x < N && IsData(N, y, x) :: (y, x)
  }

  /** data_locations(N) yields every data cell of the grid exactly once and
      nothing else: never a cell of column 6, never a cell outside the grid. */
  lemma DataPathExact(N: nat)
    requires N >= 7
    ensures forall c :: c in DataPath(N) <==> InGrid(N, c) && IsData(N, c.0, c.1)
    ensures Distinct(DataPath(N))
    ensures forall c :: c in DataPath(N) ==> c.1 != 6
  {
    forall c ensures c in DataPath(N) <==> InGrid(N, c) && IsData(N, c.0, c.1) {
      WalkMembers(N, N - 1, N - 1, -1, c);
    }
    WalkDistinct(N, N - 1, N - 1, -1);
  }

  /** The traversal starts at the bottom-right corner. */
  lemma DataPathStart(N: nat)
    requires N >= 10
    ensures |DataPath(N)| > 0 && DataPath(N)[0] == (N - 1, N - 1)
  {
  }

  /** As many locations are yielded as there are data cells. */
  lemma DataPathLength(N: nat)
    requires N >= 7
    ensures |DataPath(N)| == |DataCells(N)|
  {
    var path := DataPath(N);
    DataPathExact(N);
    assert Elements(path) == DataCells(N) by {
      forall c | c in DataCells(N) ensures c in Elements(path) {
        assert c in path;
      }
    }
    DistinctCard(path);
  }

  function Elements(s: seq<Coord>): set<Coord>
  {
    set c | c in s
  }

  lemma {:induction false} DistinctCard(s: seq<Coord>)
    requires Distinct(s)
    ensures |Elements(s)| == |s|
  {
    if s != [] {
      DistinctCard(s[1..]);
      assert Elements(s) == {s[0]} + Elements(s[1..]);
      assert s[0] !in Elements(s[1..]) by {
        forall k | 0 <= k < |s[1..]| ensures s[1..][k] != s[0] {
          assert s[1..][k] == s[k + 1];
        }
      }
    }
  }
}
