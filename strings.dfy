/**
 The two operations of Go's `strings` package that the ignore filter relies
 on, written out over `seq<char>`: `strings.Contains` (substring search) and
 `strings.Split` with a one-character separator, together with `Join`, its
 inverse. Each comes with the reference definition it is proved against.
 */
module GoStrings {

  /** `sub` occurs in `s` starting at index `i`. */
  ghost predicate OccursAt(s: string, sub: string, i: int)
  {
    0 <= i && i + |sub| <= |s| && s[i..i + |sub|] == sub
  }

  /** `p` is a prefix of `s`. */
  predicate IsPrefix(p: string, s: string)
  {
    |p| <= |s| && s[..|p|] == p
  }

  /**
   `strings.Contains(s, sub)`: true iff `sub` occurs somewhere in `s`. The
   empty string occurs in every string, the empty one included.
   */
  function Contains(s: string, sub: string): (r: bool)
    ensures r <==> exists i :: OccursAt(s, sub, i)
    decreases |s|
  {
    if IsPrefix(sub, s) then
      assert OccursAt(s, sub, 0);
      true
    else if |s| == 0 then
      assert forall i :: !OccursAt(s, sub, i);
      false
    else
      var r := Contains(s[1..], sub);
      ShiftOccurrence(s, sub);
      r
  }

  /** An occurrence in `s[1..]` is an occurrence in `s` one place later, and
      every occurrence in `s` other than at 0 is one in `s[1..]`. */
  lemma ShiftOccurrence(s: string, sub: string)
    requires |s| > 0 && !IsPrefix(sub, s)
    ensures (exists i :: OccursAt(s, sub, i)) <==> (exists j :: OccursAt(s[1..], sub, j))
  {
    if exists i :: OccursAt(s, sub, i) {
      var i :| OccursAt(s, sub, i);
      if i == 0 {
        assert false;
      }
      assert s[1..][i - 1..i - 1 + |sub|] == s[i..i + |sub|];
      assert OccursAt(s[1..], sub, i - 1);
    }
    if exists j :: OccursAt(s[1..], sub, j) {
      var j :| OccursAt(s[1..], sub, j);
      assert s[1..][j..j + |sub|] == s[j + 1..j + 1 + |sub|];
      assert OccursAt(s, sub, j + 1);
    }
  }

  /** Number of occurrences of the character `c` in `s`. */
  function Count(s: string, c: char): nat
  {
    if |s| == 0 then 0 else (if s[0] == c then 1 else 0) + Count(s[1..], c)
  }

  /** Concatenates `pieces`, putting `sep` between neighbours. */
  function Join(pieces: seq<string>, sep: char): string
    requires |pieces| >= 1
  {
    if |pieces| == 1 then pieces[0] else pieces[0] + [sep] + Join(pieces[1..], sep)
  }

  /**
   `strings.Split(s, [sep])`: the pieces of `s` between occurrences of `sep`.
   There is always one more piece than there are separators (so `Split("")`
   is `[""]`), no piece contains the separator, and joining the pieces back
   with the separator gives `s`.
   */
  function Split(s: string, sep: char): (r: seq<string>)
    ensures |r| == Count(s, sep) + 1
    ensures forall k :: 0 <= k < |r| ==> sep !in r[k]
    decreases |s|
  {
    if |s| == 0 then [""]
    else if s[0] == sep then [""] + Split(s[1..], sep)
    else
      var rest := Split(s[1..], sep);
      [[s[0]] + rest[0]] + rest[1..]
  }

  lemma {:induction false} CountPositive(s: string, c: char)
    ensures (c in s) <==> Count(s, c) > 0
    decreases |s|
  {
    if |s| > 0 {
      CountPositive(s[1..], c);
      assert s == [s[0]] + s[1..];
    }
  }

  /** A string holding the separator splits into at least two pieces, so the
      second piece that the ignore filter reads always exists. */
  lemma SplitHasSecondPiece(s: string, sep: char)
    requires sep in s
    ensures |Split(s, sep)| >= 2
  {
  }

  /** Putting a character in front of the first piece puts it in front of the
      joined string. */
  lemma {:induction false} JoinConsFirst(c: char, pieces: seq<string>, sep: char)
    requires |pieces| >= 1
    ensures Join([[c] + pieces[0]] + pieces[1..], sep) == [c] + Join(pieces, sep)
  {
  }

  /** Round trip one way: joining the pieces of `s` gives `s` back. */
  lemma {:induction false} JoinSplit(s: string, sep: char)
    ensures Join(Split(s, sep), sep) == s
    decreases |s|
  {
    if |s| == 0 {
    } else if s[0] == sep {
      JoinSplit(s[1..], sep);
      var r := [""] + Split(s[1..], sep);
      assert r[1..] == Split(s[1..], sep);
      assert s == [sep] + s[1..];
    } else {
      JoinSplit(s[1..], sep);
      JoinConsFirst(s[0], Split(s[1..], sep), sep);
      assert s == [s[0]] + s[1..];
    }
  }

  /** Round trip the other way: pieces free of the separator are recovered
      by splitting their join. So `Split` is the only separator-free
      decomposition of a string. */
  lemma {:induction false} SplitJoin(pieces: seq<string>, sep: char)
    requires |pieces| >= 1
    requires forall k :: 0 <= k < |pieces| ==> sep !in pieces[k]
    ensures Split(Join(pieces, sep), sep) == pieces
    decreases |pieces|, |pieces[0]|
  {
    var p0 := pieces[0];
    if |p0| == 0 {
      if |pieces| == 1 {
      } else {
        var s := Join(pieces, sep);
        assert s == [sep] + Join(pieces[1..], sep);
        assert s[1..] == Join(pieces[1..], sep);
        SplitJoin(pieces[1..], sep);
        assert [""] + pieces[1..] == pieces;
      }
    } else {
      var tail := [p0[1..]] + pieces[1..];
      assert tail[1..] == pieces[1..];
      assert forall k :: 0 <= k < |tail| ==> sep !in tail[k] by {
        assert forall x :: x in p0[1..] ==> x in p0;
      }
      SplitJoin(tail, sep);
      JoinConsFirst(p0[0], tail, sep);
      assert [[p0[0]] + tail[0]] + tail[1..] == pieces by {
        assert [p0[0]] + p0[1..] == p0;
      }
      var s := Join(pieces, sep);
      assert s == [p0[0]] + Join(tail, sep);
      assert s[0] == p0[0] && s[0] != sep;
      assert s[1..] == Join(tail, sep);
    }
  }

  /**
   The second piece of a string that holds the separator is the text between
   the first separator and the next one, or the end of the string when there
   is no next one: `i` below is the index of the first separator and `j` the
   end of the second piece.
   */
  lemma SecondPieceBetweenSeparators(s: string, sep: char)
    requires sep in s
    ensures |Split(s, sep)| >= 2
    ensures var r := Split(s, sep);
            var i := |r[0]|;
            var j := i + 1 + |r[1]|;
            && j <= |s| && s[i] == sep && sep !in s[..i]
            && r[1] == s[i + 1..j] && (j == |s| || s[j] == sep)
  {
    SplitHasSecondPiece(s, sep);
    JoinSplit(s, sep);
    var r := Split(s, sep);
    var tail := Join(r[1..], sep);
    assert s == r[0] + [sep] + tail;
    if |r| == 2 {
      assert tail == r[1];
    } else {
      assert r[1..][1..] == r[2..];
      assert tail == r[1] + [sep] + Join(r[2..], sep);
    }
    assert s[..|r[0]|] == r[0];
  }
}
