/**
 The scoreboard posted at the end of a battle royale
 (`Cogs/battleroyale.py`): the winner's kill points are boosted by the pool,
 every entry of the kill map is listed by points, highest first, then every
 participant without an entry is listed with 0, and the boost is taken back.
 */
module Scoreboard {
  import opened Wrappers
  import opened Strings
  import opened Dicts
  import opened Sorting
  import Arena

  const Header := "```Scoreboard "
  const Footer := "```"
  /** The gap between a padded name and its points. */
  const Gap := "   "

  /** The participants that have no entry in `d`, in order, with 0 points. */
  function ZeroRows(participants: seq<string>, d: Dict<int>): (r: Dict<int>)
    ensures forall i :: 0 <= i < |r| ==> r[i].1 == 0 && r[i].0 in participants && !HasKey(d, r[i].0)
    ensures forall p :: p in participants && !HasKey(d, p) ==> HasKey(r, p)
  {
    if participants == [] then []
    else
      var rest := ZeroRows(participants[1..], d);
      assert forall p :: p in participants[1..] ==> p in participants;
      if HasKey(d, participants[0]) then rest
      else
        assert Keys([(participants[0], 0)] + rest) == [participants[0]] + Keys(rest);
        [(participants[0], 0)] + rest
  }

  /** The zero rows follow `br_participants` order: they are built piece by
      piece over a concatenation. */
  lemma {:induction false} ZeroRowsInOrder(a: seq<string>, b: seq<string>, d: Dict<int>)
    ensures ZeroRows(a + b, d) == ZeroRows(a, d) + ZeroRows(b, d)
  {
    hide ZeroRows, HasKey;
    ZeroRowsUnfold(a, d);
    if a == [] {
      assert a + b == b;
    } else {
      assert (a + b)[0] == a[0];
      assert (a + b)[1..] == a[1..] + b;
      ZeroRowsUnfold(a + b, d);
      ZeroRowsInOrder(a[1..], b, d);
      var head := if HasKey(d, a[0]) then [] else [(a[0], 0)];
      assert head + (ZeroRows(a[1..], d) + ZeroRows(b, d)) == (head + ZeroRows(a[1..], d)) + ZeroRows(b, d);
    }
  }

  /** A single participant gives a row exactly when it has no entry. */
  lemma ZeroRowsOfOne(p: string, d: Dict<int>)
    ensures ZeroRows([p], d) == if HasKey(d, p) then [] else [(p, 0)]
  {
    hide ZeroRows, HasKey;
    ZeroRowsUnfold([p], d);
    assert [p][1..] == [];
    ZeroRowsUnfold([], d);
  }

  lemma ZeroRowsUnfold(participants: seq<string>, d: Dict<int>)
    ensures ZeroRows(participants, d) ==
      if participants == [] then []
      else (if HasKey(d, participants[0]) then [] else [(participants[0], 0)]) + ZeroRows(participants[1..], d)
  {
  }

  lemma {:induction false} ZeroRowsDistinct(participants: seq<string>, d: Dict<int>)
    requires Arena.Distinct(participants)
    ensures DistinctKeys(ZeroRows(participants, d))
  {
    if participants != [] {
      var tail := participants[1..];
      assert Arena.Distinct(tail);
      ZeroRowsDistinct(tail, d);
      var rest := ZeroRows(tail, d);
      assert participants[0] !in tail;
      if !HasKey(d, participants[0]) {
        var r := ZeroRows(participants, d);
        assert r == [(participants[0], 0)] + rest;
        forall i, j | 0 <= i < j < |r|
          ensures r[i].0 != r[j].0
        {
          assert r[j] == rest[j - 1] && rest[j - 1].0 in tail;
          if i > 0 {
            assert r[i] == rest[i - 1];
          }
        }
      }
    }
  }

  /** The rows of the scoreboard, the winner's points boosted by the pool. */
  function ScoreRows(participants: seq<string>, kills: Dict<int>, winner: string, pool: int): Dict<int>
  {
    var boosted := AddTo(kills, winner, pool);
    SortDescending(boosted) + ZeroRows(participants, boosted)
  }

  /** One line: the name left-justified to `indent`, then the points. */
  function ScoreLine(row: (string, int), indent: nat, linesep: string): string
  {
    LJust(row.0, indent) + Gap + IntToString(row.1) + linesep
  }

  function ScoreLines(rows: Dict<int>, indent: nat, linesep: string): (r: seq<string>)
    ensures |r| == |rows|
    ensures forall i :: 0 <= i < |rows| ==> r[i] == ScoreLine(rows[i], indent, linesep)
  {
    if rows == [] then [] else [ScoreLine(rows[0], indent, linesep)] + ScoreLines(rows[1..], indent, linesep)
  }

  /** The scoreboard message, aligned to the longest participant name. */
  function ScoreboardText(participants: seq<string>, kills: Dict<int>, winner: string, pool: int, linesep: string): string
    requires participants != []
  {
    var rows := ScoreRows(participants, kills, winner, pool);
    Header + linesep + linesep + Concat(ScoreLines(rows, MaxLength(participants), linesep)) + Footer
  }

  /** The kill map after the scoreboard: `kill_map[winner]` raised by the
      pool and lowered again. */
  function Settle(kills: Dict<int>, winner: string, pool: int): Dict<int>
  {
    AddTo(AddTo(kills, winner, pool), winner, -pool)
  }

  lemma HasKeyAfterAddTo(d: Dict<int>, k: string, n: int, p: string)
    ensures HasKey(AddTo(d, k, n), p) <==> HasKey(d, p) || p == k
  {
  }

  /** The boost is undone: every participant keeps the points they had, and
      the winner now has an entry even without a kill, as `kill_map` is a
      `defaultdict`. */
  lemma SettleRestoresPoints(kills: Dict<int>, winner: string, pool: int)
    ensures forall p :: GetOrZero(Settle(kills, winner, pool), p) == GetOrZero(kills, p)
    ensures forall p :: HasKey(Settle(kills, winner, pool), p) <==> HasKey(kills, p) || p == winner
  {
    var boosted := AddTo(kills, winner, pool);
    var settled := AddTo(boosted, winner, -pool);
    assert Settle(kills, winner, pool) == settled;
    AddToScores(kills, winner, pool);
    AddToScores(boosted, winner, -pool);
    forall p
      ensures GetOrZero(settled, p) == GetOrZero(kills, p)
      ensures HasKey(settled, p) <==> HasKey(kills, p) || p == winner
    {
      if p != winner {
        assert GetOrZero(settled, p) == GetOrZero(boosted, p);
      }
      HasKeyAfterAddTo(kills, winner, pool, p);
      HasKeyAfterAddTo(boosted, winner, -pool, p);
    }
  }

  /** The points shown for `p`: its kill points, plus the pool for the
      winner. */
  function Shown(kills: Dict<int>, winner: string, pool: int, p: string): int
  {
    GetOrZero(kills, p) + if p == winner then pool else 0
  }

  /** The rows of the boosted kill map: a permutation of its entries with
      distinct names, each showing that name's points. */
  lemma SortedRows(kills: Dict<int>, winner: string, pool: int)
    requires DistinctKeys(kills)
    ensures DistinctKeys(SortDescending(AddTo(kills, winner, pool)))
    ensures |SortDescending(AddTo(kills, winner, pool))| == |AddTo(kills, winner, pool)|
    ensures forall p :: HasKey(SortDescending(AddTo(kills, winner, pool)), p) <==> HasKey(kills, p) || p == winner
    ensures forall i :: 0 <= i < |SortDescending(AddTo(kills, winner, pool))| ==>
      SortDescending(AddTo(kills, winner, pool))[i].1 == Shown(kills, winner, pool, SortDescending(AddTo(kills, winner, pool))[i].0)
  {
    var boosted := AddTo(kills, winner, pool);
    var sorted := SortDescending(boosted);
    PutKeepsDistinct(kills, winner, GetOrZero(kills, winner) + pool);
    PermutationKeepsEntries(boosted, sorted);
    assert |multiset(sorted)| == |multiset(boosted)|;
    SortedRowsPoints(kills, winner, pool, sorted);
    forall p
      ensures HasKey(sorted, p) <==> HasKey(kills, p) || p == winner
    {
      HasKeyAfterAddTo(kills, winner, pool, p);
      PermutationHasSameKeys(boosted, sorted, p);
    }
  }

  lemma SortedRowsPoints(kills: Dict<int>, winner: string, pool: int, sorted: Dict<int>)
    requires forall i :: 0 <= i < |sorted| ==> Get(AddTo(kills, winner, pool), sorted[i].0) == Some(sorted[i].1)
    ensures forall i :: 0 <= i < |sorted| ==> sorted[i].1 == Shown(kills, winner, pool, sorted[i].0)
  {
    var boosted := AddTo(kills, winner, pool);
    AddToScores(kills, winner, pool);
    forall i | 0 <= i < |sorted|
      ensures sorted[i].1 == Shown(kills, winner, pool, sorted[i].0)
    {
      assert GetOrZero(boosted, sorted[i].0) == sorted[i].1;
    }
  }

  /** The first `top` rows are sorted by points, highest first; the rest show
      0 for participants without kills; every participant is on exactly one
      row, which shows its points. */
  ghost predicate RowsShowEveryone(rows: Dict<int>, top: nat, participants: seq<string>, kills: Dict<int>, winner: string, pool: int)
  {
    && top <= |rows|
    && DistinctKeys(rows)
    && (forall p :: HasKey(rows, p) <==> p in participants)
    && (forall i :: 0 <= i < |rows| ==> rows[i].1 == Shown(kills, winner, pool, rows[i].0))
    && DescendingByValue(rows[..top])
    && (forall i :: top <= i < |rows| ==> rows[i].1 == 0 && !HasKey(kills, rows[i].0) && rows[i].0 != winner)
  }

  /** Every participant appears on exactly one row, showing its kill points
      plus the pool for the winner; the rows of the kill map come first,
      highest points first, and the participants without kills follow with
      0. */
  lemma ScoreRowsSpec(participants: seq<string>, kills: Dict<int>, winner: string, pool: int)
    requires Arena.Distinct(participants)
    requires DistinctKeys(kills)
    requires forall p :: HasKey(kills, p) ==> p in participants
    requires winner in participants
    ensures RowsShowEveryone(ScoreRows(participants, kills, winner, pool), |AddTo(kills, winner, pool)|, participants, kills, winner, pool)
  {
    var boosted := AddTo(kills, winner, pool);
    var sorted := SortDescending(boosted);
    var zeros := ZeroRows(participants, boosted);
    SortedRows(kills, winner, pool);
    ZeroPart(participants, kills, winner, pool);
    JoinRows(participants, kills, winner, pool, sorted, zeros);
    assert ScoreRows(participants, kills, winner, pool) == sorted + zeros;
  }

  /** The rows with 0 points: distinct participants, none with kill points
      and not the winner, and every such participant among them. */
  lemma ZeroPart(participants: seq<string>, kills: Dict<int>, winner: string, pool: int)
    requires Arena.Distinct(participants)
    ensures var zeros := ZeroRows(participants, AddTo(kills, winner, pool));
      && DistinctKeys(zeros)
      && (forall i :: 0 <= i < |zeros| ==>
            zeros[i].1 == 0 && zeros[i].0 in participants && !(HasKey(kills, zeros[i].0) || zeros[i].0 == winner))
      && (forall p :: p in participants && !(HasKey(kills, p) || p == winner) ==> HasKey(zeros, p))
  {
    var boosted := AddTo(kills, winner, pool);
    ZeroRowsDistinct(participants, boosted);
    forall p ensures HasKey(boosted, p) <==> HasKey(kills, p) || p == winner {
      HasKeyAfterAddTo(kills, winner, pool, p);
    }
  }

  /** The two parts of the scoreboard together: names on the first part are
      those with kill points and the winner, names on the second part are the
      other participants. */
  lemma JoinRows(participants: seq<string>, kills: Dict<int>, winner: string, pool: int, sorted: Dict<int>, zeros: Dict<int>)
    requires forall p :: HasKey(kills, p) ==> p in participants
    requires winner in participants
    requires DistinctKeys(sorted) && DistinctKeys(zeros)
    requires forall p :: HasKey(sorted, p) <==> HasKey(kills, p) || p == winner
    requires forall i :: 0 <= i < |sorted| ==> sorted[i].1 == Shown(kills, winner, pool, sorted[i].0)
    requires forall i :: 0 <= i < |zeros| ==>
      zeros[i].1 == 0 && zeros[i].0 in participants && !(HasKey(kills, zeros[i].0) || zeros[i].0 == winner)
    requires forall p :: p in participants && !(HasKey(kills, p) || p == winner) ==> HasKey(zeros, p)
    requires DescendingByValue(sorted)
    ensures RowsShowEveryone(sorted + zeros, |sorted|, participants, kills, winner, pool)
  {
    var rows := sorted + zeros;
    assert rows[..|sorted|] == sorted;
    JoinDistinct(kills, winner, sorted, zeros);
    JoinKeys(participants, kills, winner, sorted, zeros);
    forall i | |sorted| <= i < |rows|
      ensures rows[i] == zeros[i - |sorted|]
    {
    }
    forall i | 0 <= i < |zeros|
      ensures zeros[i].1 == Shown(kills, winner, pool, zeros[i].0)
    {
      assert GetOrZero(kills, zeros[i].0) == 0;
    }
  }

  lemma JoinDistinct(kills: Dict<int>, winner: string, sorted: Dict<int>, zeros: Dict<int>)
    requires DistinctKeys(sorted) && DistinctKeys(zeros)
    requires forall p :: HasKey(sorted, p) ==> HasKey(kills, p) || p == winner
    requires forall i :: 0 <= i < |zeros| ==> !(HasKey(kills, zeros[i].0) || zeros[i].0 == winner)
    ensures DistinctKeys(sorted + zeros)
  {
    var rows := sorted + zeros;
    forall i, j | 0 <= i < j < |rows|
      ensures rows[i].0 != rows[j].0
    {
      if i < |sorted| <= j {
        assert Keys(sorted)[i] == rows[i].0;
        assert rows[j] == zeros[j - |sorted|];
      } else if |sorted| <= i {
        assert rows[i] == zeros[i - |sorted|] && rows[j] == zeros[j - |sorted|];
      }
    }
  }

  lemma JoinKeys(participants: seq<string>, kills: Dict<int>, winner: string, sorted: Dict<int>, zeros: Dict<int>)
    requires forall p :: HasKey(kills, p) ==> p in participants
    requires winner in participants
    requires forall p :: HasKey(sorted, p) <==> HasKey(kills, p) || p == winner
    requires forall i :: 0 <= i < |zeros| ==> zeros[i].0 in participants
    requires forall p :: p in participants && !(HasKey(kills, p) || p == winner) ==> HasKey(zeros, p)
    ensures forall p :: HasKey(sorted + zeros, p) <==> p in participants
  {
    KeysAppend(sorted, zeros);
    forall p
      ensures HasKey(sorted + zeros, p) <==> p in participants
    {
      if HasKey(zeros, p) {
        var i :| 0 <= i < |zeros| && Keys(zeros)[i] == p;
        assert zeros[i].0 == p;
      }
    }
  }

  /** The message: the header, a blank line, one line per row with every
      name padded to the longest participant name so that the points line
      up in one column, and the closing fence. */
  lemma ScoreboardLayout(participants: seq<string>, kills: Dict<int>, winner: string, pool: int, linesep: string)
    requires Arena.Distinct(participants)
    requires DistinctKeys(kills)
    requires forall p :: HasKey(kills, p) ==> p in participants
    requires winner in participants
    ensures var rows := ScoreRows(participants, kills, winner, pool);
      var indent := MaxLength(participants);
      var lines := ScoreLines(rows, indent, linesep);
      && ScoreboardText(participants, kills, winner, pool, linesep) == Header + linesep + linesep + Concat(lines) + Footer
      && |lines| == |rows|
      && forall i :: 0 <= i < |lines| ==>
           && |LJust(rows[i].0, indent)| == indent
           && lines[i] == LJust(rows[i].0, indent) + Gap + IntToString(Shown(kills, winner, pool, rows[i].0)) + linesep
  {
    hide ScoreRows, AddTo, Concat, LJust, IntToString, MaxLength;
    ScoreRowsSpec(participants, kills, winner, pool);
    var rows := ScoreRows(participants, kills, winner, pool);
    var indent := MaxLength(participants);
    NamesFit(rows, participants);
  }

  /** Rows naming only participants fit the longest participant name. */
  lemma NamesFit(rows: Dict<int>, participants: seq<string>)
    requires participants != []
    requires forall p :: HasKey(rows, p) ==> p in participants
    ensures forall i :: 0 <= i < |rows| ==> |rows[i].0| <= MaxLength(participants)
  {
    forall i | 0 <= i < |rows|
      ensures |rows[i].0| <= MaxLength(participants)
    {
      assert Keys(rows)[i] == rows[i].0;
      assert HasKey(rows, rows[i].0);
      assert rows[i].0 in participants;
      var m :| 0 <= m < |participants| && participants[m] == rows[i].0;
    }
  }

  /** The participants without kills are shown with the literal `0`. */
  lemma ZeroIsShownAsZero()
    ensures IntToString(0) == "0"
  {
  }
}
