/** The candidate-string engine of solver.py.
    A grid is a sequence of 81 strings. In the input puzzle each entry is a
    one-character string, a digit or the blank " ". In a candidate grid each
    entry lists the characters still possible for that cell; an entry of
    length 1 is a fixed cell. */
module Solver {
  import opened Zones

  /** The blank marker of an input puzzle. */
  const Blank: string := " "

  /** The digits, in the order build_candidates tries them. */
  const Digits: string := "123456789"

  // ---------------------------------------------------------------------
  // Candidate strings

  /** `s.replace(d, '')`: s with every occurrence of the character d removed. */
  function Remove(s: string, d: char): (r: string)
    ensures forall c :: c in r <==> c in s && c != d
    ensures |r| <= |s|
    ensures d in s ==> |r| < |s|
  {
    if s == [] then []
    else if s[0] == d then Remove(s[1..], d)
    else [s[0]] + Remove(s[1..], d)
  }

  /** The characters of t that belong to keep, in t's order. */
  function Keep(t: string, keep: set<char>): (r: string)
    ensures forall c :: c in r <==> c in t && c in keep
    ensures |r| <= |t|
  {
    if t == [] then [] else (if t[0] in keep then [t[0]] else []) + Keep(t[1..], keep)
  }

  function Chars(s: string): set<char>
  {
    set c | c in s
  }

  /** s is t with every occurrence of some characters deleted: s adds no
      character and keeps t's order (in particular s is a subsequence of t). */
  predicate KeptFrom(s: string, t: string)
  {
    s == Keep(t, Chars(s))
  }

  /** No character occurs twice in s. */
  predicate Distinct(s: string)
  {
    forall i, j :: 0 <= i < j < |s| ==> s[i] != s[j]
  }

  lemma {:induction false} KeepAll(t: string, keep: set<char>)
    requires forall c :: c in t ==> c in keep
    ensures Keep(t, keep) == t
  {
    if t != [] {
      KeepAll(t[1..], keep);
      assert t == [t[0]] + t[1..];
    }
  }

  /** Every string is kept from itself. */
  lemma KeptFromSelf(t: string)
    ensures KeptFrom(t, t)
  {
    KeepAll(t, Chars(t));
  }

  lemma {:induction false} RemoveAfterKeep(t: string, keep: set<char>, d: char)
    ensures Remove(Keep(t, keep), d) == Keep(t, keep - {d})
  {
    if t != [] {
      RemoveAfterKeep(t[1..], keep, d);
      var s := Keep(t, keep);
      if t[0] in keep {
        assert s == [t[0]] + Keep(t[1..], keep);
        assert s[0] == t[0] && s[1..] == Keep(t[1..], keep);
      } else {
        assert s == Keep(t[1..], keep);
      }
    }
  }

  /** Removing a character keeps the kept-from relation with the original entry. */
  lemma KeptFromRemove(s: string, t: string, d: char)
    requires KeptFrom(s, t)
    ensures KeptFrom(Remove(s, d), t)
  {
    RemoveAfterKeep(t, Chars(s), d);
    assert Chars(Remove(s, d)) == Chars(s) - {d};
  }

  lemma {:induction false} KeepKeep(t: string, a: set<char>, b: set<char>)
    ensures Keep(Keep(t, a), b) == Keep(t, a * b)
  {
    if t != [] {
      KeepKeep(t[1..], a, b);
      var s := Keep(t, a);
      if t[0] in a {
        assert s == [t[0]] + Keep(t[1..], a);
        assert s[0] == t[0] && s[1..] == Keep(t[1..], a);
      } else {
        assert s == Keep(t[1..], a);
      }
    }
  }

  /** Kept-from is transitive. */
  lemma KeptFromTrans(a: string, b: string, c: string)
    requires KeptFrom(a, b) && KeptFrom(b, c)
    ensures KeptFrom(a, c)
  {
    KeepKeep(c, Chars(b), Chars(a));
    assert Chars(b) * Chars(a) == Chars(a);
  }

  /** An entry kept from one with distinct characters has distinct characters. */
  lemma {:induction false} KeepDistinct(t: string, keep: set<char>)
    requires Distinct(t)
    ensures Distinct(Keep(t, keep))
  {
    if t != [] {
      assert Distinct(t[1..]);
      KeepDistinct(t[1..], keep);
      var rest := Keep(t[1..], keep);
      assert t[0] !in t[1..];
      assert t[0] !in rest;
      var head := if t[0] in keep then [t[0]] else [];
      assert Keep(t, keep) == head + rest;
    }
  }

  /** With distinct characters, removing one character shortens s by at most one. */
  lemma {:induction false} RemoveDistinct(s: string, d: char)
    requires Distinct(s)
    ensures |Remove(s, d)| >= |s| - 1
  {
    if s != [] {
      assert Distinct(s[1..]);
      if s[0] == d {
        assert d !in s[1..];
        KeepAll(s[1..], Chars(s[1..]));
        RemoveNothing(s[1..], d);
      } else {
        RemoveDistinct(s[1..], d);
      }
    }
  }

  lemma {:induction false} RemoveNothing(s: string, d: char)
    requires d !in s
    ensures Remove(s, d) == s
  {
    if s != [] {
      RemoveNothing(s[1..], d);
      assert s == [s[0]] + s[1..];
    }
  }

  /** The sum of the lengths of all entries: the measure that makes eliminate
      and find_solutions terminate. */
  function TotalLength(g: seq<string>): nat
  {
    if g == [] then 0 else |g[0]| + TotalLength(g[1..])
  }

  lemma {:induction false} TotalLengthUpdate(g: seq<string>, i: nat, x: string)
    requires i < |g|
    ensures TotalLength(g[i := x]) == TotalLength(g) - |g[i]| + |x|
  {
    if i > 0 {
      assert g[i := x][1..] == g[1..][i - 1 := x];
      TotalLengthUpdate(g[1..], i - 1, x);
    } else {
      assert g[i := x][1..] == g[1..];
    }
  }

  lemma {:induction false} TotalLengthPointwise(g: seq<string>, h: seq<string>)
    requires |g| == |h|
    requires forall i :: 0 <= i < |g| ==> |h[i]| <= |g[i]|
    ensures TotalLength(h) <= TotalLength(g)
  {
    if g != [] {
      TotalLengthPointwise(g[1..], h[1..]);
    }
  }

  // ---------------------------------------------------------------------
  // legal_candidate

  /** legal_candidate: x occurs in none of the row, column and box slices of pos.
      The slices include pos itself, so an x equal to pos's own entry is never
      legal. */
  function LegalCandidate(p: seq<string>, pos: nat, x: string): (r: bool)
    requires |p| == 81 && pos < 81
    ensures r ==> p[pos] != x
  {
    SliceBounds(pos);
    var row := RowStart(pos);
    var tl := BoxTopLeft(pos);
    assert p[row..row + 9][pos - row] == p[pos];
    x !in p[row..row + 9] &&
    x !in Stride(p, pos % 9, 9) &&
    x !in p[tl..tl + 3] &&
    x !in p[tl + 9..tl + 9 + 3] &&
    x !in p[tl + 18..tl + 18 + 3]
  }

  /** legal_candidate(p, pos, x) is false exactly when some cell of pos's row,
      column or box (pos itself included) holds x. */
  lemma LegalCandidateMeaning(p: seq<string>, pos: nat, x: string)
    requires |p| == 81 && pos < 81
    ensures LegalCandidate(p, pos, x) <==> forall j :: 0 <= j < 81 && SameZone(pos, j) ==> p[j] != x
  {
    SliceBounds(pos);
    var tl := BoxTopLeft(pos);
    assert x in ZoneSlice(p, BoxZone, pos) <==>
      x in p[tl..tl + 3] || x in p[tl + 9..tl + 9 + 3] || x in p[tl + 18..tl + 18 + 3];
    ZoneSliceLists(p, RowZone, pos);
    ZoneSliceLists(p, ColumnZone, pos);
    ZoneSliceLists(p, BoxZone, pos);
    ListedValues(p, ZoneSlice(p, RowZone, pos), RowZone, pos, x);
    ListedValues(p, ZoneSlice(p, ColumnZone, pos), ColumnZone, pos, x);
    ListedValues(p, ZoneSlice(p, BoxZone, pos), BoxZone, pos, x);
  }

  // ---------------------------------------------------------------------
  // build_candidates

  lemma DigitValues()
    ensures |Digits| == 9
    ensures forall i :: 0 <= i < 9 ==> Digits[i] as int == '1' as int + i
  {
    assert Digits == ['1', '2', '3', '4', '5', '6', '7', '8', '9'];
  }

  /** s lists, in strictly increasing order, exactly the digits d that
      legal_candidate accepts at pos of puzzle. */
  ghost predicate LegalDigits(puzzle: seq<string>, pos: nat, s: string)
    requires |puzzle| == 81 && pos < 81
  {
    (forall i, j :: 0 <= i < j < |s| ==> s[i] < s[j]) &&
    (forall d :: d in s <==> d in Digits && LegalCandidate(puzzle, pos, [d]))
  }

  /** The inner loop of build_candidates for a blank cell: the digits, in
      order, that legal_candidate accepts at pos. */
  method LegalDigitsAt(puzzle: seq<string>, pos: nat) returns (candList: string)
    requires |puzzle| == 81 && pos < 81
    ensures LegalDigits(puzzle, pos, candList)
  {
    DigitValues();
    candList := "";
    for k := 0 to 9
      invariant forall i, j :: 0 <= i < j < |candList| ==> candList[i] < candList[j]
      invariant forall i :: 0 <= i < |candList| ==> candList[i] as int < '1' as int + k
      invariant forall d :: d in candList <==> d in Digits[..k] && LegalCandidate(puzzle, pos, [d])
    {
      var digit := Digits[k];
      assert Digits[..k + 1] == Digits[..k] + [digit];
      if LegalCandidate(puzzle, pos, [digit]) {
        candList := candList + [digit];
      }
    }
    assert Digits[..9] == Digits;
  }

  /** Each blank of puzzle among the first |cands| cells has its legal digits in cands. */
  ghost predicate BlanksLegal(puzzle: seq<string>, cands: seq<string>)
    requires |puzzle| == 81 && |cands| <= 81
  {
    forall p :: 0 <= p < |cands| && puzzle[p] == Blank ==> LegalDigits(puzzle, p, cands[p])
  }

  lemma BlanksLegalAppend(puzzle: seq<string>, cands: seq<string>, e: string)
    requires |puzzle| == 81 && |cands| < 81 && BlanksLegal(puzzle, cands)
    requires puzzle[|cands|] == Blank ==> LegalDigits(puzzle, |cands|, e)
    ensures BlanksLegal(puzzle, cands + [e])
  {
    var c := cands + [e];
    forall p | 0 <= p < |c| && puzzle[p] == Blank
      ensures LegalDigits(puzzle, p, c[p])
    {
      if p < |cands| {
        assert c[p] == cands[p];
      }
    }
  }

  /** build_candidates: a given keeps its entry; a blank gets the ascending
      string of the digits legal at its position. */
  method BuildCandidates(puzzle: seq<string>) returns (candidates: seq<string>)
    requires |puzzle| == 81
    ensures |candidates| == 81
    ensures forall pos :: 0 <= pos < 81 && puzzle[pos] != Blank ==> candidates[pos] == puzzle[pos]
    ensures forall pos :: 0 <= pos < 81 && puzzle[pos] == Blank ==> LegalDigits(puzzle, pos, candidates[pos])
  {
    candidates := [];
    for pos := 0 to 81
      invariant |candidates| == pos
      invariant forall p :: 0 <= p < pos && puzzle[p] != Blank ==> candidates[p] == puzzle[p]
      invariant BlanksLegal(puzzle, candidates)
    {
      var candList := "";
      if puzzle[pos] == Blank {
        candList := LegalDigitsAt(puzzle, pos);
      } else {
        candList := candList + puzzle[pos];
      }
      BlanksLegalAppend(puzzle, candidates, candList);
      candidates := candidates + [candList];
    }
  }

  // ---------------------------------------------------------------------
  // eliminate

  /** Cell p of a candidate grid is at rest: if it still has several
      candidates, legal_candidate accepts each of them at p. */
  ghost predicate Settled(g: seq<string>, p: nat)
    requires |g| == 81 && p < 81
  {
    |g[p]| > 1 ==> forall i :: 0 <= i < |g[p]| ==> LegalCandidate(g, p, [g[p][i]])
  }

  /** The first n cells are at rest. */
  ghost predicate SettledUpTo(g: seq<string>, n: nat)
    requires |g| == 81 && n <= 81
  {
    forall p :: 0 <= p < n ==> Settled(g, p)
  }

  lemma SettledUpToNext(g: seq<string>, n: nat)
    requires |g| == 81 && n < 81 && SettledUpTo(g, n) && Settled(g, n)
    ensures SettledUpTo(g, n + 1)
  {
  }

  /** Every cell is at rest: eliminate has nothing left to remove. */
  ghost predicate AtFixpoint(g: seq<string>)
    requires |g| == 81
  {
    SettledUpTo(g, 81)
  }

  /** legal_candidate at pos does not depend on pos's own entry, as long as
      neither entry is the one-character string looked for. */
  lemma LegalIgnoresOwnEntry(g: seq<string>, pos: nat, x: string, c: char)
    requires |g| == 81 && pos < 81 && g[pos] != [c] && x != [c]
    ensures LegalCandidate(g[pos := x], pos, [c]) == LegalCandidate(g, pos, [c])
  {
    LegalCandidateMeaning(g, pos, [c]);
    LegalCandidateMeaning(g[pos := x], pos, [c]);
  }

  /** One deletion of EliminateAt: removing a rejected digit keeps the entry
      a deletion of the original, keeps every deletion rejected, and leaves a
      distinct entry of two or more candidates non-empty. */
  lemma RemoveRejected(grid: seq<string>, pos: nat, s: string, cur: string, d: char)
    requires |grid| == 81 && pos < 81
    requires KeptFrom(cur, s) && (Distinct(s) ==> |cur| >= 2)
    requires forall c :: c in s && c !in cur ==> !LegalCandidate(grid, pos, [c])
    requires !LegalCandidate(grid, pos, [d])
    ensures KeptFrom(Remove(cur, d), s)
    ensures forall c :: c in s && c !in Remove(cur, d) ==> !LegalCandidate(grid, pos, [c])
    ensures Distinct(s) ==> |Remove(cur, d)| >= 1
  {
    KeptFromRemove(cur, s, d);
    if Distinct(s) {
      KeepDistinct(s, Chars(cur));
      RemoveDistinct(cur, d);
    }
  }

  /** legal_candidate accepts at pos each of the first k characters of s. */
  ghost predicate LegalUpTo(grid: seq<string>, pos: nat, s: string, k: nat)
    requires |grid| == 81 && pos < 81 && k <= |s|
  {
    forall m :: 0 <= m < k ==> LegalCandidate(grid, pos, [s[m]])
  }

  lemma LegalUpToNext(grid: seq<string>, pos: nat, s: string, k: nat)
    requires |grid| == 81 && pos < 81 && k < |s|
    requires LegalUpTo(grid, pos, s, k) && LegalCandidate(grid, pos, [s[k]])
    ensures LegalUpTo(grid, pos, s, k + 1)
  {
  }

  /** The inner loop of eliminate for one cell: for each character of the entry
      as it stood on entry, delete it if legal_candidate rejects it, and stop
      as soon as one candidate is left. Returns the number of deletions. */
  method EliminateAt(candidates: array<string>, pos: nat) returns (removed: nat)
    requires candidates.Length == 81 && pos < 81 && |candidates[pos]| > 1
    modifies candidates
    ensures candidates[..] == old(candidates[..])[pos := candidates[pos]]
    ensures KeptFrom(candidates[pos], old(candidates[pos]))
    ensures forall c :: c in old(candidates[pos]) && c !in candidates[pos] ==>
      !LegalCandidate(old(candidates[..]), pos, [c])
    ensures Distinct(old(candidates[pos])) ==> |candidates[pos]| >= 1
    ensures Settled(old(candidates[..]), pos) ==> removed == 0
    ensures removed == 0 ==> candidates[..] == old(candidates[..]) && Settled(candidates[..], pos)
    ensures removed > 0 ==> |candidates[pos]| < |old(candidates[pos])|
  {
    var grid := candidates[..];
    var s := grid[pos];
    var cur := s;
    KeptFromSelf(s);
    removed := 0;
    var k := 0;
    while k < |s|
      invariant 0 <= k <= |s|
      invariant candidates[..] == grid
      invariant KeptFrom(cur, s)
      invariant |cur| != 1
      invariant forall c :: c in s && c !in cur ==> !LegalCandidate(grid, pos, [c])
      invariant Distinct(s) ==> |cur| >= 2
      invariant Settled(grid, pos) ==> removed == 0
      invariant removed == 0 ==> cur == s
      invariant removed > 0 ==> |cur| < |s|
      invariant removed == 0 ==> LegalUpTo(grid, pos, s, k)
    {
      LegalIgnoresOwnEntry(grid, pos, cur, s[k]);
      if !LegalCandidate(grid[pos := cur], pos, [s[k]]) {
        RemoveRejected(grid, pos, s, cur, s[k]);
        cur := Remove(cur, s[k]);
        removed := removed + 1;
        if |cur| == 1 {
          break;
        }
      } else if removed == 0 {
        LegalUpToNext(grid, pos, s, k);
      }
      k := k + 1;
    }
    candidates[pos] := cur;
    assert candidates[..] == grid[pos := cur];
  }

  /** Where a round of eliminate stands before cell n: the cells from n on
      are as the round found them, and every entry only lost characters, an
      entry of length at most 1 none, and one of two or more distinct
      characters not all. */
  ghost predicate RoundProgress(round: seq<string>, g: seq<string>, n: nat)
  {
    |round| == 81 && |g| == 81 && n <= 81 &&
    (forall i :: n <= i < 81 ==> g[i] == round[i]) &&
    forall i :: 0 <= i < 81 ==>
      KeptFrom(g[i], round[i]) && (|round[i]| <= 1 ==> g[i] == round[i]) &&
      (|round[i]| >= 2 && Distinct(round[i]) ==> |g[i]| >= 1)
  }

  /** Replacing the entry at n by a deletion of it that keeps a candidate
      moves a round on to the next cell. */
  lemma RoundProgressStep(round: seq<string>, g: seq<string>, x: string, n: nat)
    requires RoundProgress(round, g, n) && n < 81 && |g[n]| > 1
    requires KeptFrom(x, g[n]) && (Distinct(g[n]) ==> |x| >= 1)
    ensures RoundProgress(round, g[n := x], n + 1)
  {
    KeptFromSelf(round[n]);
  }

  /** Every candidate deleted from an entry of before is one that
      legal_candidate rejects at that cell in after. */
  ghost predicate DeletionsRejected(before: seq<string>, after: seq<string>)
    requires |before| == 81 && |after| == 81
  {
    forall i, c :: 0 <= i < 81 && c in before[i] && c !in after[i] ==> !LegalCandidate(after, i, [c])
  }

  /** A rejection stays a rejection while fixed entries are left alone: the
      cell holding the digit has one candidate. */
  lemma RejectedStays(g: seq<string>, h: seq<string>, i: nat, c: char)
    requires |g| == 81 && |h| == 81 && i < 81
    requires forall j :: 0 <= j < 81 && |g[j]| == 1 ==> h[j] == g[j]
    requires !LegalCandidate(g, i, [c])
    ensures !LegalCandidate(h, i, [c])
  {
    LegalCandidateMeaning(g, i, [c]);
    LegalCandidateMeaning(h, i, [c]);
    var j :| 0 <= j < 81 && SameZone(i, j) && g[j] == [c];
    assert h[j] == [c];
  }

  /** One EliminateAt step keeps every deletion of the round justified. */
  lemma DeletionsRejectedStep(round: seq<string>, g: seq<string>, pos: nat, x: string)
    requires |round| == 81 && |g| == 81 && pos < 81 && |g[pos]| > 1
    requires DeletionsRejected(round, g)
    requires forall c :: c in g[pos] && c !in x ==> !LegalCandidate(g, pos, [c])
    ensures DeletionsRejected(round, g[pos := x])
  {
    var h := g[pos := x];
    forall i, c | 0 <= i < 81 && c in round[i] && c !in h[i]
      ensures !LegalCandidate(h, i, [c])
    {
      assert !LegalCandidate(g, i, [c]);
      RejectedStays(g, h, i, c);
    }
  }

  /** Justified deletions compose across rounds. */
  lemma DeletionsRejectedTrans(a: seq<string>, b: seq<string>, c: seq<string>)
    requires |a| == 81 && |b| == 81 && |c| == 81
    requires DeletionsRejected(a, b) && DeletionsRejected(b, c)
    requires forall j :: 0 <= j < 81 && |b[j]| == 1 ==> c[j] == b[j]
    ensures DeletionsRejected(a, c)
  {
    forall i, d | 0 <= i < 81 && d in a[i] && d !in c[i]
      ensures !LegalCandidate(c, i, [d])
    {
      if d !in b[i] {
        RejectedStays(b, c, i, d);
      }
    }
  }

  /** Deleting from an entry of several candidates only digits that
      legal_candidate rejects loses no finished grid: every solution that
      narrows the grid still narrows it afterwards. */
  lemma RemovalSound(grid: seq<string>, pos: nat, x: string, g: seq<string>)
    requires |grid| == 81 && pos < 81 && |grid[pos]| > 1 && KeptFrom(x, grid[pos])
    requires forall c :: c in grid[pos] && c !in x ==> !LegalCandidate(grid, pos, [c])
    requires IsSolution(g) && Narrows(g, grid)
    ensures Narrows(g, grid[pos := x])
  {
    var e := g[pos][0];
    assert g[pos] == [e];
    forall j | 0 <= j < 81 && SameZone(pos, j)
      ensures grid[j] != [e]
    {
      if j != pos && |grid[j]| == 1 {
        assert grid[j] == g[j];
      }
    }
    LegalCandidateMeaning(grid, pos, [e]);
    assert e in x;
    var h := grid[pos := x];
    forall i | 0 <= i < 81
      ensures (forall m :: 0 <= m < |g[i]| ==> g[i][m] in h[i]) && (|h[i]| == 1 ==> g[i] == h[i])
    {
      if i == pos && |x| == 1 {
        assert x == [x[0]];
      }
    }
  }

  /** One round of eliminate: EliminateAt on every cell with several
      candidates, in index order. Returns the number of deletions. */
  method EliminateRound(candidates: array<string>) returns (eliminations: nat)
    requires candidates.Length == 81
    modifies candidates
    ensures forall i :: 0 <= i < 81 ==> KeptFrom(candidates[i], old(candidates[i]))
    ensures forall i :: 0 <= i < 81 && |old(candidates[i])| <= 1 ==> candidates[i] == old(candidates[i])
    ensures forall i :: 0 <= i < 81 && |old(candidates[i])| >= 2 && Distinct(old(candidates[i])) ==>
      |candidates[i]| >= 1
    ensures eliminations > 0 ==> TotalLength(candidates[..]) < TotalLength(old(candidates[..]))
    ensures eliminations == 0 ==> candidates[..] == old(candidates[..]) && AtFixpoint(candidates[..])
    ensures AtFixpoint(old(candidates[..])) ==> eliminations == 0 && candidates[..] == old(candidates[..])
    ensures forall g :: IsSolution(g) && Narrows(g, old(candidates[..])) ==> Narrows(g, candidates[..])
    ensures DeletionsRejected(old(candidates[..]), candidates[..])
  {
    ghost var round := candidates[..];
    forall i | 0 <= i < 81
      ensures KeptFrom(round[i], round[i])
    {
      KeptFromSelf(round[i]);
    }
    assert RoundProgress(round, candidates[..], 0);
    eliminations := 0;
    for pos := 0 to 81
      invariant RoundProgress(round, candidates[..], pos)
      invariant TotalLength(candidates[..]) + (if eliminations > 0 then 1 else 0) <= TotalLength(round)
      invariant eliminations == 0 ==> candidates[..] == round
      invariant eliminations == 0 ==> SettledUpTo(round, pos)
      invariant AtFixpoint(round) ==> eliminations == 0
      invariant forall g :: IsSolution(g) && Narrows(g, round) ==> Narrows(g, candidates[..])
      invariant DeletionsRejected(round, candidates[..])
    {
      if |candidates[pos]| > 1 {
        ghost var before := candidates[..];
        if AtFixpoint(round) {
          assert Settled(before, pos);
        }
        var removed := EliminateAt(candidates, pos);
        TotalLengthUpdate(before, pos, candidates[pos]);
        RoundProgressStep(round, before, candidates[pos], pos);
        forall g | IsSolution(g) && Narrows(g, round)
          ensures Narrows(g, candidates[..])
        {
          RemovalSound(before, pos, candidates[pos], g);
        }
        DeletionsRejectedStep(round, before, pos, candidates[pos]);
        eliminations := eliminations + removed;
      }
      if eliminations == 0 {
        SettledUpToNext(round, pos);
      }
    }
  }

  /** eliminate: in rounds, delete from every entry with several candidates
      each digit that legal_candidate rejects, until a round deletes nothing. */
  method Eliminate(candidates: array<string>)
    requires candidates.Length == 81
    modifies candidates
    ensures forall i :: 0 <= i < 81 ==> KeptFrom(candidates[i], old(candidates[i]))
    ensures forall i :: 0 <= i < 81 ==> |candidates[i]| <= |old(candidates[i])|
    ensures forall i :: 0 <= i < 81 && |old(candidates[i])| <= 1 ==> candidates[i] == old(candidates[i])
    ensures forall i :: 0 <= i < 81 && |old(candidates[i])| >= 2 && Distinct(old(candidates[i])) ==>
      |candidates[i]| >= 1
    ensures AtFixpoint(candidates[..])
    ensures AtFixpoint(old(candidates[..])) ==> candidates[..] == old(candidates[..])
    ensures forall g :: IsSolution(g) && Narrows(g, old(candidates[..])) ==> Narrows(g, candidates[..])
    ensures DeletionsRejected(old(candidates[..]), candidates[..])
  {
    ghost var start := candidates[..];
    forall i | 0 <= i < 81
      ensures KeptFrom(start[i], start[i])
    {
      KeptFromSelf(start[i]);
    }
    var eliminations: nat := 1;
    while eliminations > 0
      invariant forall i :: 0 <= i < 81 ==> KeptFrom(candidates[i], start[i])
      invariant forall i :: 0 <= i < 81 && |start[i]| <= 1 ==> candidates[i] == start[i]
      invariant forall i :: 0 <= i < 81 && |start[i]| >= 2 && Distinct(start[i]) ==> |candidates[i]| >= 1
      invariant eliminations == 0 ==> AtFixpoint(candidates[..])
      invariant AtFixpoint(start) ==> candidates[..] == start
      invariant forall g :: IsSolution(g) && Narrows(g, start) ==> Narrows(g, candidates[..])
      invariant DeletionsRejected(start, candidates[..])
      decreases TotalLength(candidates[..]) + (if eliminations > 0 then 1 else 0)
    {
      ghost var round := candidates[..];
      eliminations := EliminateRound(candidates);
      forall i | 0 <= i < 81
        ensures KeptFrom(candidates[i], start[i])
        ensures |start[i]| >= 2 && Distinct(start[i]) ==> |candidates[i]| >= 1
      {
        KeptFromTrans(candidates[i], round[i], start[i]);
        if Distinct(start[i]) {
          KeepDistinct(start[i], Chars(round[i]));
        }
      }
      DeletionsRejectedTrans(start, round, candidates[..]);
    }
  }

  // ---------------------------------------------------------------------
  // verify

  /** A finished grid: every entry is one character other than the blank,
      and no two distinct cells of a row, column or box hold equal entries. */
  ghost predicate IsSolution(g: seq<string>)
  {
    |g| == 81 &&
    (forall i :: 0 <= i < 81 ==> |g[i]| == 1 && g[i] != Blank) &&
    (forall i, j :: 0 <= i < 81 && 0 <= j < 81 && i != j && SameZone(i, j) ==> g[i] != g[j])
  }

  /** verify: each cell in turn is blanked and its entry checked with
      legal_candidate, then restored. */
  method Verify(puzzle: array<string>) returns (ok: bool)
    requires puzzle.Length == 81
    modifies puzzle
    ensures puzzle[..] == old(puzzle[..])
    ensures ok == IsSolution(puzzle[..])
  {
    ghost var g := puzzle[..];
    for pos := 0 to 81
      invariant puzzle[..] == g
      invariant forall p :: 0 <= p < pos ==> |g[p]| == 1 && g[p] != Blank
      invariant forall p, j :: 0 <= p < pos && 0 <= j < 81 && j != p && SameZone(p, j) ==> g[j] != g[p]
    {
      if |puzzle[pos]| != 1 {
        return false;
      }
      var digit := puzzle[pos];
      puzzle[pos] := Blank;
      LegalCandidateMeaning(puzzle[..], pos, digit);
      assert puzzle[..] == g[pos := Blank];
      if !LegalCandidate(puzzle[..], pos, digit) {
        puzzle[pos] := digit;
        assert puzzle[..] == g;
        return false;
      }
      puzzle[pos] := digit;
      assert puzzle[..] == g;
    }
    return true;
  }

  // ---------------------------------------------------------------------
  // gen_guesses

  /** Cell j is reached by gen_guesses' scan unless an earlier cell had
      exactly two candidates (the scan breaks there). */
  ghost predicate Scanned(c: seq<string>, j: int)
    requires j <= |c|
  {
    forall k :: 0 <= k < j ==> |c[k]| != 2
  }

  /** No cell qualifies for branching: each entry has one character or at least nine. */
  ghost predicate NoBranchCell(c: seq<string>)
  {
    forall j :: 0 <= j < |c| ==> |c[j]| == 1 || |c[j]| >= 9
  }

  /** pos is the cell gen_guesses branches on: among the cells the scan
      reaches whose length is not 1 and below 9, the first of least length. */
  ghost predicate IsBranchCell(c: seq<string>, pos: int)
  {
    0 <= pos < |c| && Scanned(c, pos) && |c[pos]| != 1 && |c[pos]| < 9 &&
    (forall j :: 0 <= j < pos && |c[j]| != 1 ==> |c[j]| > |c[pos]|) &&
    (forall j :: pos < j < |c| && Scanned(c, j) && |c[j]| != 1 ==> |c[j]| >= |c[pos]|)
  }

  /** `list.index(x)`: the first position of s holding x. */
  function IndexOf(s: seq<string>, x: string): (i: nat)
    requires x in s
    ensures i < |s| && s[i] == x
    ensures forall k :: 0 <= k < i ==> s[k] != x
  {
    if s[0] == x then 0 else 1 + IndexOf(s[1..], x)
  }

  /** gen_guesses: find the branch cell and return one copy of the grid per
      candidate of that cell, in the cell's order, with the cell fixed to that
      candidate. No branch cell gives no guesses. The ghost result pos is the
      cell the scan settles on (-1 for none). */
  method GenGuesses(candidates: seq<string>) returns (guesses: seq<seq<string>>, ghost pos: int)
    ensures pos == -1 <==> NoBranchCell(candidates)
    ensures pos != -1 ==> IsBranchCell(candidates, pos)
    ensures pos == -1 ==> guesses == []
    ensures pos != -1 ==> |guesses| == |candidates[pos]|
    ensures pos != -1 ==> forall k :: 0 <= k < |guesses| ==>
      guesses[k] == candidates[pos := [candidates[pos][k]]]
  {
    guesses := [];
    var p := -1;
    var posLen := 9;
    var i := 0;
    while i < |candidates|
      invariant 0 <= i <= |candidates|
      invariant -1 <= p < i
      invariant p == -1 ==> posLen == 9 && forall k :: 0 <= k < i ==> |candidates[k]| == 1 || |candidates[k]| >= 9
      invariant p != -1 ==> posLen == |candidates[p]| && posLen != 1 && posLen != 2 && posLen < 9
      invariant p != -1 ==> Scanned(candidates, p)
      invariant p != -1 ==> forall k :: 0 <= k < p && |candidates[k]| != 1 ==> |candidates[k]| > posLen
      invariant p != -1 ==> forall k :: p < k < i && |candidates[k]| != 1 ==> |candidates[k]| >= posLen
      invariant posLen == 0 || Scanned(candidates, i)
    {
      var candList := candidates[i];
      if |candList| == 1 {
        i := i + 1;
        continue;
      }
      if |candList| < posLen {
        posLen := |candList|;
        p := IndexOf(candidates, candList);
        assert p == i;
      }
      if posLen == 2 {
        break;
      }
      i := i + 1;
    }
    pos := p;
    if p == -1 {
      return;
    }
    var cell := candidates[p];
    for k := 0 to |cell|
      invariant |guesses| == k
      invariant forall m :: 0 <= m < k ==> guesses[m] == candidates[p := [cell[m]]]
    {
      var guess := candidates;
      guess := guess[p := [cell[k]]];
      guesses := guesses + [guess];
    }
  }

  // ---------------------------------------------------------------------
  // find_solutions and solve

  /** g narrows c: every entry of g uses only characters of the matching entry
      of c, and entries of c with a single character are kept as they are. */
  ghost predicate Narrows(g: seq<string>, c: seq<string>)
  {
    |g| == |c| &&
    forall i :: 0 <= i < |c| ==>
      (forall m :: 0 <= m < |g[i]| ==> g[i][m] in c[i]) && (|c[i]| == 1 ==> g[i] == c[i])
  }

  lemma NarrowsTrans(a: seq<string>, b: seq<string>, c: seq<string>)
    requires Narrows(a, b) && Narrows(b, c)
    ensures Narrows(a, c)
  {
    forall i, m | 0 <= i < |c| && 0 <= m < |a[i]|
      ensures a[i][m] in c[i]
    {
      var k :| 0 <= k < |b[i]| && b[i][k] == a[i][m];
    }
  }

  /** The merge loop of find_solutions: append, in order, each grid of sols
      that is not in ret yet. */
  method AppendNew(ret: seq<seq<string>>, sols: seq<seq<string>>) returns (r: seq<seq<string>>)
    requires forall k, l :: 0 <= k < l < |ret| ==> ret[k] != ret[l]
    ensures |r| >= |ret| && r[..|ret|] == ret
    ensures forall g :: g in r <==> g in ret || g in sols
    ensures forall k, l :: 0 <= k < l < |r| ==> r[k] != r[l]
  {
    r := ret;
    for si := 0 to |sols|
      invariant |r| >= |ret| && r[..|ret|] == ret
      invariant forall g :: g in r <==> g in ret || g in sols[..si]
      invariant forall k, l :: 0 <= k < l < |r| ==> r[k] != r[l]
    {
      assert sols[..si + 1] == sols[..si] + [sols[si]];
      if sols[si] !in r {
        r := r + [sols[si]];
      }
    }
    assert sols[..|sols|] == sols;
  }

  /** `newcand = eliminate(guess)` followed by `verify(newcand)`, on a copy
      of guess: newcand only narrows guess, is no longer in total, keeps every
      finished grid that narrows guess, and solved tells whether it is a
      finished grid. */
  method Settle(guess: seq<string>) returns (newcand: seq<string>, solved: bool)
    requires |guess| == 81
    ensures Narrows(newcand, guess)
    ensures forall i :: 0 <= i < 81 ==> |newcand[i]| <= |guess[i]|
    ensures TotalLength(newcand) <= TotalLength(guess)
    ensures solved == IsSolution(newcand)
    ensures forall g :: IsSolution(g) && Narrows(g, guess) ==> Narrows(g, newcand)
  {
    var grid := new string[81](k requires 0 <= k < 81 => guess[k]);
    assert grid[..] == guess;
    Eliminate(grid);
    newcand := grid[..];
    assert Narrows(newcand, guess);
    TotalLengthPointwise(guess, newcand);
    solved := Verify(grid);
  }

  /** Every entry of c has fewer than nine characters, so gen_guesses, whose
      pos_len starts at 9, can branch on any open cell of c. */
  ghost predicate Short(c: seq<string>)
  {
    forall i :: 0 <= i < |c| ==> |c[i]| < 9
  }

  /** The `guess == puzzle` test of find_solutions skips none of c's guesses:
      puzzle is not a grid that narrows c and is smaller in total. */
  ghost predicate NotAGuess(puzzle: seq<string>, c: seq<string>)
  {
    !Narrows(puzzle, c) || TotalLength(puzzle) >= TotalLength(c)
  }

  /** Every finished grid that narrows one of the first n guesses is in ret. */
  ghost predicate FoundUpTo(ret: seq<seq<string>>, guesses: seq<seq<string>>, n: nat)
  {
    n <= |guesses| &&
    forall k, g :: 0 <= k < n && IsSolution(g) && Narrows(g, guesses[k]) ==> g in ret
  }

  /** A finished grid that narrows another finished grid is that grid. */
  lemma SolvedNarrowEq(g: seq<string>, h: seq<string>)
    requires IsSolution(g) && IsSolution(h) && Narrows(g, h)
    ensures g == h
  {
    forall i | 0 <= i < 81
      ensures g[i] == h[i]
    {
      assert |h[i]| == 1;
    }
  }

  /** A finished grid other than c that narrows the Short grid c leaves c
      an open cell to branch on, and it narrows the guess that fixes the
      branch cell to its own digit there. */
  lemma GuessFor(cand: seq<string>, pos: int, g: seq<string>) returns (k: nat)
    requires Short(cand) && IsSolution(g) && Narrows(g, cand) && g != cand
    requires pos == -1 <==> NoBranchCell(cand)
    requires pos != -1 ==> IsBranchCell(cand, pos)
    ensures pos != -1 && k < |cand[pos]| && Narrows(g, cand[pos := [cand[pos][k]]])
  {
    var i :| 0 <= i < 81 && g[i] != cand[i];
    assert |cand[i]| != 1 && |cand[i]| < 9;
    var c := g[pos][0];
    assert g[pos] == [c];
    assert c in cand[pos];
    k :| 0 <= k < |cand[pos]| && cand[pos][k] == c;
  }

  /** What find_solutions hands down to the recursive call on newcand, the
      settled form of a guess on c: newcand is Short, and c is not one of
      newcand's guesses. */
  lemma ShortNext(c: seq<string>, pos: nat, x: char, newcand: seq<string>)
    requires Short(c) && pos < |c| == 81 && |c[pos]| >= 2 && |newcand| == 81
    requires forall i :: 0 <= i < 81 ==> |newcand[i]| <= |c[pos := [x]][i]|
    requires TotalLength(newcand) <= TotalLength(c[pos := [x]])
    ensures Short(newcand) && NotAGuess(c, newcand)
    ensures TotalLength(c[pos := [x]]) < TotalLength(c)
  {
    TotalLengthUpdate(c, pos, [x]);
  }

  /** find_solutions: for each guess that differs from puzzle, eliminate; keep
      it if it is solved and new, otherwise recurse and keep the new grids
      found below. When every entry is Short and the `guess == puzzle` test
      skips no guess, it finds every finished grid other than cand that
      narrows cand. */
  method FindSolutions(puzzle: seq<string>, cand: seq<string>) returns (ret: seq<seq<string>>)
    requires |cand| == 81
    ensures forall g :: g in ret ==> IsSolution(g) && Narrows(g, cand)
    ensures forall k, l :: 0 <= k < l < |ret| ==> ret[k] != ret[l]
    ensures NoBranchCell(cand) ==> ret == []
    ensures Short(cand) && NotAGuess(puzzle, cand) ==>
      forall g :: IsSolution(g) && Narrows(g, cand) && g != cand ==> g in ret
    decreases TotalLength(cand)
  {
    ret := [];
    var guessList, pos := GenGuesses(cand);
    ghost var complete := Short(cand) && NotAGuess(puzzle, cand);
    for gi := 0 to |guessList|
      invariant forall g :: g in ret ==> IsSolution(g) && Narrows(g, cand)
      invariant forall k, l :: 0 <= k < l < |ret| ==> ret[k] != ret[l]
      invariant complete ==> FoundUpTo(ret, guessList, gi)
      invariant gi == 0 ==> ret == []
    {
      var guess := guessList[gi];
      assert Narrows(guess, cand);
      TotalLengthUpdate(cand, pos, guess[pos]);
      if guess == puzzle {
        continue;
      }
      var newcand, solved := Settle(guess);
      NarrowsTrans(newcand, guess, cand);
      ghost var prior := ret;
      if solved && newcand !in ret {
        ret := ret + [newcand];
        forall g | IsSolution(g) && Narrows(g, guess)
          ensures g in ret
        {
          SolvedNarrowEq(g, newcand);
        }
      } else {
        if complete {
          ShortNext(cand, pos, cand[pos][gi], newcand);
        }
        var sols := FindSolutions(cand, newcand);
        forall g | g in sols
          ensures Narrows(g, cand)
        {
          NarrowsTrans(g, newcand, cand);
        }
        ret := AppendNew(ret, sols);
        forall g | complete && IsSolution(g) && Narrows(g, guess)
          ensures g in ret
        {
          if g == newcand {
            assert newcand in prior;
          } else {
            assert g in sols;
          }
        }
      }
      if complete {
        FoundStep(prior, ret, guessList, gi);
      }
    }
    if complete {
      forall g | IsSolution(g) && Narrows(g, cand) && g != cand
        ensures g in ret
      {
        var k := GuessFor(cand, pos, g);
      }
    }
  }

  /** FoundUpTo moves on to the next guess once ret has grown to hold every
      finished grid that narrows it. */
  lemma FoundStep(ret: seq<seq<string>>, ret': seq<seq<string>>, guesses: seq<seq<string>>, n: nat)
    requires FoundUpTo(ret, guesses, n) && n < |guesses|
    requires forall g :: g in ret ==> g in ret'
    requires forall g :: IsSolution(g) && Narrows(g, guesses[n]) ==> g in ret'
    ensures FoundUpTo(ret', guesses, n + 1)
  {
  }

  /** g completes puzzle: each one-character given is kept, and each blank
      holds a digit that legal_candidate accepts there in the puzzle. */
  ghost predicate Completes(g: seq<string>, puzzle: seq<string>)
    requires |g| == 81 && |puzzle| == 81
  {
    forall i :: 0 <= i < 81 ==>
      (|puzzle[i]| == 1 && puzzle[i] != Blank ==> g[i] == puzzle[i]) &&
      (puzzle[i] == Blank ==> |g[i]| == 1 && g[i][0] in Digits && LegalCandidate(puzzle, i, g[i]))
  }

  /** A finished grid that narrows the candidates build_candidates made
      from puzzle completes puzzle. */
  lemma NarrowedCandidatesComplete(puzzle: seq<string>, cand: seq<string>, g: seq<string>)
    requires |puzzle| == 81 && |cand| == 81
    requires forall pos :: 0 <= pos < 81 && puzzle[pos] != Blank ==> cand[pos] == puzzle[pos]
    requires forall pos :: 0 <= pos < 81 && puzzle[pos] == Blank ==> LegalDigits(puzzle, pos, cand[pos])
    requires IsSolution(g) && Narrows(g, cand)
    ensures Completes(g, puzzle)
  {
    forall i | 0 <= i < 81 && puzzle[i] == Blank
      ensures |g[i]| == 1 && g[i][0] in Digits && LegalCandidate(puzzle, i, g[i])
    {
      assert g[i][0] in cand[i];
      assert g[i] == [g[i][0]];
    }
  }

  /** Every cell of puzzle is one character, and every blank cell has a
      digit that legal_candidate rejects there, so build_candidates lists
      fewer than nine candidates for it. */
  ghost predicate Restricted(puzzle: seq<string>)
    requires |puzzle| == 81
  {
    forall i :: 0 <= i < 81 ==>
      |puzzle[i]| == 1 && (puzzle[i] == Blank ==> exists d :: d in Digits && !LegalCandidate(puzzle, i, [d]))
  }

  /** A strictly increasing string has as many distinct characters as it is long. */
  lemma {:induction false} SortedChars(s: string)
    requires forall i, j :: 0 <= i < j < |s| ==> s[i] < s[j]
    ensures |Chars(s)| == |s|
  {
    if s != [] {
      SortedChars(s[1..]);
      assert Chars(s) == {s[0]} + Chars(s[1..]);
      assert s[0] !in Chars(s[1..]);
    }
  }

  /** The digits legal at pos are fewer than nine when one digit is rejected there. */
  lemma FewerDigits(puzzle: seq<string>, pos: nat, s: string, d: char)
    requires |puzzle| == 81 && pos < 81 && LegalDigits(puzzle, pos, s)
    requires d in Digits && !LegalCandidate(puzzle, pos, [d])
    ensures |s| < 9
  {
    SortedChars(s);
    var more := Chars(s) + {d};
    assert d !in Chars(s);
    assert |more| == |s| + 1;
    DigitValues();
    assert forall i, j :: 0 <= i < j < |Digits| ==> Digits[i] < Digits[j];
    SortedChars(Digits);
    assert more <= Chars(Digits);
    SubsetCard(more, Chars(Digits));
  }

  lemma SubsetCard(a: set<char>, b: set<char>)
    requires a <= b
    ensures |a| <= |b|
  {
    assert b == a + (b - a);
    assert a * (b - a) == {};
  }

  /** The candidates build_candidates makes from a Restricted puzzle, and
      anything eliminate narrows them to, are Short. */
  lemma BuiltShort(puzzle: seq<string>, cand: seq<string>, elim: seq<string>)
    requires |puzzle| == 81 && |cand| == 81 && |elim| == 81 && Restricted(puzzle)
    requires forall pos :: 0 <= pos < 81 && puzzle[pos] != Blank ==> cand[pos] == puzzle[pos]
    requires forall pos :: 0 <= pos < 81 && puzzle[pos] == Blank ==> LegalDigits(puzzle, pos, cand[pos])
    requires forall i :: 0 <= i < 81 ==> |elim[i]| <= |cand[i]|
    ensures Short(elim)
  {
    forall i | 0 <= i < 81
      ensures |cand[i]| < 9
    {
      if puzzle[i] == Blank {
        var d :| d in Digits && !LegalCandidate(puzzle, i, [d]);
        FewerDigits(puzzle, i, cand[i], d);
      }
    }
  }

  /** A puzzle of one-character cells is not a guess of what its candidates
      are eliminated to: a blank cell holds no digit, and without blanks the
      candidates are the puzzle itself. */
  lemma BuiltNotAGuess(puzzle: seq<string>, cand: seq<string>, elim: seq<string>)
    requires |puzzle| == 81 && |cand| == 81 && Restricted(puzzle)
    requires forall pos :: 0 <= pos < 81 && puzzle[pos] != Blank ==> cand[pos] == puzzle[pos]
    requires forall pos :: 0 <= pos < 81 && puzzle[pos] == Blank ==> LegalDigits(puzzle, pos, cand[pos])
    requires Narrows(elim, cand)
    ensures NotAGuess(puzzle, elim)
  {
    if Narrows(puzzle, elim) {
      forall i | 0 <= i < 81
        ensures puzzle[i] == elim[i]
      {
        assert puzzle[i][0] in elim[i] && puzzle[i][0] in cand[i];
        assert puzzle[i] != Blank;
      }
      assert puzzle == elim;
    }
  }

  /** Every finished grid that completes puzzle narrows the candidates
      build_candidates makes from it. */
  lemma CompletesNarrows(puzzle: seq<string>, cand: seq<string>, g: seq<string>)
    requires |puzzle| == 81 && |cand| == 81 && Restricted(puzzle)
    requires forall pos :: 0 <= pos < 81 && puzzle[pos] != Blank ==> cand[pos] == puzzle[pos]
    requires forall pos :: 0 <= pos < 81 && puzzle[pos] == Blank ==> LegalDigits(puzzle, pos, cand[pos])
    requires IsSolution(g) && Completes(g, puzzle)
    ensures Narrows(g, cand)
  {
    forall i | 0 <= i < 81
      ensures (forall m :: 0 <= m < |g[i]| ==> g[i][m] in cand[i]) && (|cand[i]| == 1 ==> g[i] == cand[i])
    {
      if puzzle[i] == Blank {
        assert g[i] == [g[i][0]] && g[i][0] in cand[i];
        if |cand[i]| == 1 {
          assert cand[i] == [cand[i][0]];
        }
      }
    }
  }

  /** solve without its printing: the grids it would print. On a Restricted
      puzzle they are every finished grid that completes it. */
  method Solve(puzzle: seq<string>) returns (solutions: seq<seq<string>>)
    requires |puzzle| == 81
    ensures forall k :: 0 <= k < |solutions| ==> IsSolution(solutions[k]) && Completes(solutions[k], puzzle)
    ensures forall k, l :: 0 <= k < l < |solutions| ==> solutions[k] != solutions[l]
    ensures Restricted(puzzle) ==> forall g :: IsSolution(g) && Completes(g, puzzle) ==> g in solutions
  {
    var cand := BuildCandidates(puzzle);
    var elim, ok := Settle(cand);
    ghost var complete := Restricted(puzzle);
    if complete {
      BuiltShort(puzzle, cand, elim);
      BuiltNotAGuess(puzzle, cand, elim);
    }
    if ok {
      solutions := [elim];
    } else {
      solutions := FindSolutions(puzzle, elim);
    }
    assert forall k :: 0 <= k < |solutions| ==> IsSolution(solutions[k]);
    forall k | 0 <= k < |solutions|
      ensures Completes(solutions[k], puzzle)
    {
      NarrowsTrans(solutions[k], elim, cand);
      NarrowedCandidatesComplete(puzzle, cand, solutions[k]);
    }
    forall g | complete && IsSolution(g) && Completes(g, puzzle)
      ensures g in solutions
    {
      CompletesNarrows(puzzle, cand, g);
      if ok {
        SolvedNarrowEq(g, elim);
      }
    }
  }
}
