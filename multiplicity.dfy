/**
 * Splitting a multiplicity such as "0..*" into its min and max (main.py:63-64).
 * The source uses Python's `str.split("..")`, which scans left to right for
 * non-overlapping occurrences of the separator; `Pieces` is that split.
 */
module Multiplicity {

  /** The separator ".." starts at index `i` of `s`. */
  predicate SepAt(s: string, i: int) {
    0 <= i && i + 1 < |s| && s[i] == '.' && s[i + 1] == '.'
  }

  /** `".." in s` */
  predicate HasSep(s: string) {
    exists i | 0 <= i < |s| :: SepAt(s, i)
  }

  /** `s.split("..")` */
  function Pieces(s: string): (r: seq<string>)
    ensures |r| >= 1
    decreases |s|
  {
    if |s| < 2 then [s]
    else if s[0] == '.' && s[1] == '.' then [""] + Pieces(s[2..])
    else
      var rest := Pieces(s[1..]);
      [[s[0]] + rest[0]] + rest[1..]
  }

  /** `"..".join(ps)` */
  function Join(ps: seq<string>): string
    requires |ps| >= 1
  {
    if |ps| == 1 then ps[0] else ps[0] + ".." + Join(ps[1..])
  }

  /** Joining the pieces back with ".." gives the original text. */
  lemma {:induction false} JoinPieces(s: string)
    ensures Join(Pieces(s)) == s
    decreases |s|
  {
    if |s| < 2 {
    } else if s[0] == '.' && s[1] == '.' {
      JoinPieces(s[2..]);
      assert Pieces(s) == [""] + Pieces(s[2..]);
      assert s == ".." + s[2..];
    } else {
      JoinPieces(s[1..]);
      var rest := Pieces(s[1..]);
      var r := [[s[0]] + rest[0]] + rest[1..];
      assert Pieces(s) == r;
      assert s == [s[0]] + s[1..];
      if |rest| == 1 {
        assert r == [[s[0]] + s[1..]];
      } else {
        var tail := Join(rest[1..]);
        assert r[1..] == rest[1..];
        assert Join(r) == ([s[0]] + rest[0]) + ".." + tail;
        assert s[1..] == rest[0] + ".." + tail;
        assert ([s[0]] + rest[0]) + ".." + tail == [s[0]] + (rest[0] + ".." + tail);
      }
    }
  }

  /** The split stops at the leftmost separator: the first piece is exactly
      the text before the first "..", or all of `s` when there is none. */
  lemma {:induction false} FirstPiece(s: string)
    ensures |Pieces(s)[0]| <= |s| && s[..|Pieces(s)[0]|] == Pieces(s)[0]
    ensures forall i | 0 <= i < |Pieces(s)[0]| :: !SepAt(s, i)
    ensures |Pieces(s)[0]| < |s| ==> SepAt(s, |Pieces(s)[0]|)
    ensures |Pieces(s)[0]| == |s| <==> |Pieces(s)| == 1
    decreases |s|
  {
    if |s| < 2 {
    } else if s[0] == '.' && s[1] == '.' {
    } else {
      FirstPiece(s[1..]);
      var p := Pieces(s[1..])[0];
      forall i | 0 <= i < |p| + 1 ensures !SepAt(s, i) {
        if i > 0 {
          assert !SepAt(s[1..], i - 1);
        }
      }
      if |p| + 1 < |s| {
        assert SepAt(s[1..], |p|);
      }
    }
  }

  /** A leading ".." adds an empty first piece and keeps the last one. */
  lemma SkipStep(s: string)
    requires |s| >= 2 && s[0] == '.' && s[1] == '.'
    ensures |Pieces(s)| == |Pieces(s[2..])| + 1
    ensures Pieces(s)[|Pieces(s)| - 1] == Pieces(s[2..])[|Pieces(s[2..])| - 1]
  {
    assert Pieces(s) == [""] + Pieces(s[2..]);
  }

  /** Any other first character joins the first piece: the number of
      pieces stays, and so does the last piece when there are several. */
  lemma ShiftStep(s: string)
    requires |s| >= 2 && !(s[0] == '.' && s[1] == '.')
    ensures |Pieces(s)| == |Pieces(s[1..])|
    ensures |Pieces(s)| > 1 ==>
      Pieces(s)[|Pieces(s)| - 1] == Pieces(s[1..])[|Pieces(s[1..])| - 1]
  {
    var q := Pieces(s[1..]);
    var r := [[s[0]] + q[0]] + q[1..];
    assert Pieces(s) == r;
    assert |r| == 1 + (|q| - 1);
    if |q| > 1 {
      assert r[|r| - 1] == q[1..][|q| - 2];
    }
  }

  /** A suffix of `s[k..]` is a suffix of `s`. */
  lemma SuffixOfDrop(s: string, k: nat, p: string)
    requires k <= |s| && |p| <= |s| - k && s[k..][|s| - k - |p|..] == p
    ensures s[|s| - |p|..] == p
  {
    assert s[k..][|s| - k - |p|..] == s[|s| - |p|..];
  }

  /** A separator in `s[k..]` is a separator in `s`, `k` places further on. */
  lemma SepInDrop(s: string, k: nat, i: int)
    requires k <= |s| && SepAt(s[k..], i)
    ensures SepAt(s, i + k)
  {
  }

  /** The last piece is a suffix of `s`, and it follows a ".." whenever
      there is more than one piece. */
  lemma {:induction false} LastPiece(s: string)
    ensures var p := Pieces(s)[|Pieces(s)| - 1];
      && |p| <= |s| && s[|s| - |p|..] == p
      && (|Pieces(s)| > 1 ==> |p| + 2 <= |s| && SepAt(s, |s| - |p| - 2))
    decreases |s|
  {
    var r := Pieces(s);
    var p := r[|r| - 1];
    if |r| == 1 {
      FirstPiece(s);
      assert p == s[..|s|] == s;
    } else if s[0] == '.' && s[1] == '.' {
      SkipStep(s);
      LastPiece(s[2..]);
      SuffixOfDrop(s, 2, p);
      if |Pieces(s[2..])| == 1 {
        FirstPiece(s[2..]);
      } else {
        SepInDrop(s, 2, |s| - 2 - |p| - 2);
      }
    } else {
      ShiftStep(s);
      LastPiece(s[1..]);
      SuffixOfDrop(s, 1, p);
      SepInDrop(s, 1, |s| - 1 - |p| - 2);
    }
  }

  /** The last piece has no ".." in it. */
  lemma {:induction false} LastPieceHasNoSep(s: string)
    ensures !HasSep(Pieces(s)[|Pieces(s)| - 1])
    decreases |s|
  {
    var r := Pieces(s);
    var p := r[|r| - 1];
    if |r| == 1 {
      SeveralPiecesIffSep(s);
      FirstPiece(s);
      assert p == s[..|s|] == s;
    } else if s[0] == '.' && s[1] == '.' {
      SkipStep(s);
      LastPieceHasNoSep(s[2..]);
    } else {
      ShiftStep(s);
      LastPieceHasNoSep(s[1..]);
    }
  }

  /** `HasSep(s)` exactly when the split yields more than one piece. */
  lemma SeveralPiecesIffSep(s: string)
    ensures |Pieces(s)| > 1 <==> HasSep(s)
  {
    FirstPiece(s);
    var p := Pieces(s)[0];
    if |Pieces(s)| > 1 {
      assert SepAt(s, |p|);
    } else {
      assert p == s;
    }
  }

  /** `multiplicity.split("..")[0]` */
  function MinOf(s: string): (r: string)
    ensures !HasSep(s) ==> r == s
    ensures HasSep(s) ==>
      && |r| + 2 <= |s| && s[..|r|] == r && SepAt(s, |r|)
      && forall i | 0 <= i < |r| :: !SepAt(s, i)
  {
    FirstPiece(s);
    SeveralPiecesIffSep(s);
    Pieces(s)[0]
  }

  /** `multiplicity.split("..")[-1] if ".." in multiplicity else multiplicity` */
  function MaxOf(s: string): (r: string)
    ensures !HasSep(s) ==> r == s
    ensures HasSep(s) ==>
      && |r| + 2 <= |s| && s[|s| - |r|..] == r && SepAt(s, |s| - |r| - 2)
      && !HasSep(r)
  {
    if HasSep(s) then
      LastPiece(s);
      LastPieceHasNoSep(s);
      SeveralPiecesIffSep(s);
      Pieces(s)[|Pieces(s)| - 1]
    else s
  }

  /** The cardinalities that the parser and the generators expect, and one
      that shows the left-to-right scan: "0...5" has max ".5". */
  lemma MultiplicityExamples()
    ensures MinOf("0..*") == "0" && MaxOf("0..*") == "*"
    ensures MinOf("1") == "1" && MaxOf("1") == "1"
    ensures MinOf("1..5") == "1" && MaxOf("1..5") == "5"
    ensures MinOf("0...5") == "0" && MaxOf("0...5") == ".5"
  {
    assert SepAt("0..*", 1);
    assert "0..*"[1..] == "..*" && "..*"[2..] == "*";
    assert Pieces("..*") == ["", "*"];
    assert SepAt("1..5", 1);
    assert "1..5"[1..] == "..5" && "..5"[2..] == "5";
    assert Pieces("..5") == ["", "5"];
    assert SepAt("0...5", 1);
    assert "0...5"[1..] == "...5" && "...5"[2..] == ".5" && ".5"[1..] == "5";
    assert Pieces("5") == ["5"] && ['.'] + "5" == ".5";
    assert Pieces(".5") == [".5"];
    assert Pieces("...5") == ["", ".5"];
  }
}
