/** String operations the bundler relies on: the order used to compare
    paths and extensions, and the split / drop-empty / join pipeline that
    removes blank lines from a file's text. */
module Text {

  // ---------------------------------------------------------------------
  // Ordinal string order
  // ---------------------------------------------------------------------

  /** `a` sorts no later than `b`: lexicographic comparison of character codes. */
  predicate Le(a: string, b: string)
  {
    if a == [] then true
    else if b == [] then false
    else if a[0] != b[0] then a[0] < b[0]
    else Le(a[1..], b[1..])
  }

  lemma {:induction false} LeReflexive(a: string)
    ensures Le(a, a)
  {
    if a != [] { LeReflexive(a[1..]); }
  }

  lemma {:induction false} LeTotal(a: string, b: string)
    ensures Le(a, b) || Le(b, a)
  {
    if a != [] && b != [] && a[0] == b[0] { LeTotal(a[1..], b[1..]); }
  }

  lemma {:induction false} LeAntisymmetric(a: string, b: string)
    requires Le(a, b) && Le(b, a)
    ensures a == b
  {
    if a != [] && b != [] {
      LeAntisymmetric(a[1..], b[1..]);
      assert a == [a[0]] + a[1..] && b == [b[0]] + b[1..];
    }
  }

  lemma {:induction false} LeTransitive(a: string, b: string, c: string)
    requires Le(a, b) && Le(b, c)
    ensures Le(a, c)
  {
    if a != [] && b != [] && c != [] && a[0] == b[0] && b[0] == c[0] {
      LeTransitive(a[1..], b[1..], c[1..]);
    }
  }

  // ---------------------------------------------------------------------
  // Splitting on the newline string and joining with it
  // ---------------------------------------------------------------------

  /** The platform's line-break string; never empty. */
  type Newline = s: string | |s| > 0 witness "\n"

  /** `nl` occurs in `s` starting at index `i`. */
  predicate MatchAt(s: string, i: nat, nl: string)
  {
    i + |nl| <= |s| && s[i..i + |nl|] == nl
  }

  /** `s` holds no occurrence of `nl`. */
  predicate Free(s: string, nl: string)
  {
    forall i: nat :: i < |s| ==> !MatchAt(s, i, nl)
  }

  /** The first `m` characters of `nl` equal its last `m` characters. */
  predicate IsBorder(nl: string, m: nat)
    requires m <= |nl|
  {
    nl[..m] == nl[|nl| - m..]
  }

  /** No two occurrences of `nl` can overlap: no proper prefix of `nl` is also
      a suffix of it. Holds of "\n" and "\r\n". */
  predicate Borderless(nl: string)
  {
    forall m: nat :: 0 < m < |nl| ==> !IsBorder(nl, m)
  }

  lemma PlatformNewlinesBorderless()
    ensures Borderless("\n") && Borderless("\r\n")
  {
    var crlf := "\r\n";
    assert crlf[..1] == ['\r'] && crlf[2 - 1..] == ['\n'];
    assert !IsBorder(crlf, 1);
  }

  /** `string.Split(nl)` without options: cuts `s` at every occurrence of `nl`,
      scanning left to right; the pieces between occurrences are kept, empty
      ones included, so there is always at least one piece. */
  function Split(s: string, nl: Newline): (r: seq<string>)
    ensures |r| >= 1
    decreases |s|
  {
    if |s| == 0 then [""]
    else if MatchAt(s, 0, nl) then [""] + Split(s[|nl|..], nl)
    else
      var t := Split(s[1..], nl);
      [[s[0]] + t[0]] + t[1..]
  }

  /** `string.Join(nl, segs)`: the segments with `nl` between neighbours. */
  function Join(segs: seq<string>, nl: string): string
  {
    if segs == [] then ""
    else if |segs| == 1 then segs[0]
    else segs[0] + nl + Join(segs[1..], nl)
  }

  /** `StringSplitOptions.RemoveEmptyEntries`: the non-empty segments, in order. */
  function DropEmpty(segs: seq<string>): (r: seq<string>)
    ensures |r| <= |segs|
    ensures forall i :: 0 <= i < |r| ==> |r[i]| > 0
    ensures (forall i :: 0 <= i < |segs| ==> |segs[i]| > 0) ==> r == segs
  {
    if segs == [] then []
    else if |segs[0]| == 0 then DropEmpty(segs[1..])
    else [segs[0]] + DropEmpty(segs[1..])
  }

  /** Exactly the non-empty segments survive. */
  lemma {:induction false} DropEmptyMembers(segs: seq<string>)
    ensures forall e :: e in DropEmpty(segs) <==> e in segs && |e| > 0
  {
    if segs != [] {
      DropEmptyMembers(segs[1..]);
      assert segs == [segs[0]] + segs[1..];
    }
  }

  /** The blank-line stripper of the bundler: split on `nl`, drop the
      zero-length pieces, join again with `nl`. Lines holding only
      whitespace are not zero-length and stay. */
  function StripEmptyLines(text: string, nl: Newline): string
  {
    Join(DropEmpty(Split(text, nl)), nl)
  }

  // ---------------------------------------------------------------------
  // Split and Join are inverse to each other
  // ---------------------------------------------------------------------

  lemma JoinCons(x: string, rest: seq<string>, nl: string)
    requires rest != []
    ensures Join([x] + rest, nl) == x + nl + Join(rest, nl)
  {
    assert ([x] + rest)[1..] == rest;
  }

  /** Gluing a character onto the first piece glues it onto the joined text. */
  lemma JoinGlue(c: char, t: seq<string>, nl: string)
    requires |t| >= 1
    ensures Join([[c] + t[0]] + t[1..], nl) == [c] + Join(t, nl)
  {
    if |t| > 1 {
      JoinCons([c] + t[0], t[1..], nl);
      JoinCons(t[0], t[1..], nl);
      assert t == [t[0]] + t[1..];
    }
  }

  /** Joining the pieces of a split gives back the text. */
  lemma {:induction false} JoinSplit(s: string, nl: Newline)
    ensures Join(Split(s, nl), nl) == s
    decreases |s|
  {
    if |s| == 0 {
    } else if MatchAt(s, 0, nl) {
      var t := Split(s[|nl|..], nl);
      assert Split(s, nl) == [""] + t;
      JoinSplit(s[|nl|..], nl);
      JoinCons("", t, nl);
      assert s == nl + s[|nl|..];
    } else {
      var t := Split(s[1..], nl);
      assert Split(s, nl) == [[s[0]] + t[0]] + t[1..];
      JoinSplit(s[1..], nl);
      JoinGlue(s[0], t, nl);
      assert s == [s[0]] + s[1..];
    }
  }

  /** The first piece of a split is a prefix of the text. */
  lemma {:induction false} SplitHeadPrefix(s: string, nl: Newline)
    ensures |Split(s, nl)[0]| <= |s| && Split(s, nl)[0] == s[..|Split(s, nl)[0]|]
    decreases |s|
  {
    if |s| > 0 && !MatchAt(s, 0, nl) {
      SplitHeadPrefix(s[1..], nl);
    }
  }

  /** When no occurrence of `nl` starts inside `p`, the split of `p + t`
      glues `p` onto the first piece of the split of `t`. */
  lemma {:induction false} SplitAfterFreePrefix(p: string, t: string, nl: Newline)
    requires forall i: nat :: i < |p| ==> !MatchAt(p + t, i, nl)
    ensures Split(p + t, nl) == [p + Split(t, nl)[0]] + Split(t, nl)[1..]
    decreases |p|
  {
    var st := Split(t, nl);
    if p == [] {
      assert p + t == t;
      assert p + st[0] == st[0];
      assert st == [st[0]] + st[1..];
    } else {
      var p' := p[1..];
      assert (p + t)[1..] == p' + t;
      forall i: nat | i < |p'| ensures !MatchAt(p' + t, i, nl) {
        assert !MatchAt(p + t, i + 1, nl);
        if i + |nl| <= |p' + t| {
          assert (p + t)[i + 1..i + 1 + |nl|] == (p' + t)[i..i + |nl|];
        }
      }
      SplitAfterFreePrefix(p', t, nl);
      assert !MatchAt(p + t, 0, nl);
      assert [p[0]] + (p' + st[0]) == p + st[0];
    }
  }

  /** An occurrence of a borderless `nl` cannot start inside a free `e` and
      end inside the `nl` that follows it. */
  lemma NoStraddle(e: string, j: string, nl: Newline, i: nat)
    requires Free(e, nl) && Borderless(nl) && i < |e|
    ensures !MatchAt(e + nl + j, i, nl)
  {
    var s := e + nl + j;
    if i + |nl| <= |e| {
      var window, inside := s[i..i + |nl|], e[i..i + |nl|];
      forall q | 0 <= q < |nl| ensures window[q] == inside[q] {
        assert window[q] == s[i + q];
      }
      assert window == inside;
      assert !MatchAt(e, i, nl);
    } else if i + |nl| <= |s| {
      var k := |e| - i;
      var m := |nl| - k;
      assert !IsBorder(nl, m);
      assert exists q :: 0 <= q < m && nl[..m][q] != nl[k..][q];
      var q :| 0 <= q < m && nl[..m][q] != nl[k..][q];
      assert s[|e| + q] == nl[q];
      assert s[i..i + |nl|][k + q] != nl[k + q];
    }
  }

  /** No occurrence of `nl` starts inside `e`, even one that runs on into
      an `nl` written right after `e`. */
  predicate Sealed(e: string, nl: Newline)
  {
    forall i: nat :: i < |e| ==> !MatchAt(e + nl, i, nl)
  }

  /** The shape of the pieces of a split: every piece is free of `nl`, and
      every piece but the last is sealed. */
  predicate Separable(segs: seq<string>, nl: Newline)
  {
    && (forall k :: 0 <= k < |segs| ==> Free(segs[k], nl))
    && (forall k :: 0 <= k < |segs| - 1 ==> Sealed(segs[k], nl))
  }

  /** Dropping the first piece keeps the pieces separable. */
  lemma SeparableTail(segs: seq<string>, nl: Newline)
    requires segs != [] && Separable(segs, nl)
    ensures Separable(segs[1..], nl)
  {
    var rest := segs[1..];
    forall k | 0 <= k < |rest| ensures Free(rest[k], nl) {
      assert rest[k] == segs[k + 1];
    }
    forall k | 0 <= k < |rest| - 1 ensures Sealed(rest[k], nl) {
      assert rest[k] == segs[k + 1];
    }
  }

  /** A character that does not start an occurrence of `nl` in front of a
      sealed piece followed by `nl` makes a sealed piece. */
  lemma SealedGlue(c: char, e: string, nl: Newline, j: string)
    requires Sealed(e, nl) && !MatchAt([c] + e + nl + j, 0, nl)
    ensures Sealed([c] + e, nl)
  {
    var h := [c] + e;
    forall i: nat | i < |h| ensures !MatchAt(h + nl, i, nl) {
      if i == 0 {
        assert [c] + e + nl + j == (h + nl) + j;
        MatchInPrefix(h + nl, j, nl, 0);
      } else {
        assert !MatchAt(e + nl, i - 1, nl);
        if i + |nl| <= |h + nl| {
          assert (h + nl)[i..i + |nl|] == (e + nl)[i - 1..i - 1 + |nl|];
        }
      }
    }
  }

  /** Whether `nl` occurs at `i` depends only on the characters there, so
      extending the text on the right does not change it. */
  lemma MatchInPrefix(p: string, x: string, nl: Newline, i: nat)
    requires i + |nl| <= |p|
    ensures MatchAt(p + x, i, nl) <==> MatchAt(p, i, nl)
  {
    var window, inside := (p + x)[i..i + |nl|], p[i..i + |nl|];
    forall q | 0 <= q < |nl| ensures window[q] == inside[q] {
      assert window[q] == (p + x)[i + q];
    }
    assert window == inside;
  }

  /** A sealed piece followed by `nl` cannot have an occurrence of `nl`
      starting inside it, whatever comes after. */
  lemma SealedStraddle(e: string, j: string, nl: Newline, i: nat)
    requires Sealed(e, nl) && i < |e|
    ensures !MatchAt(e + nl + j, i, nl)
  {
    assert !MatchAt(e + nl, i, nl);
    MatchInPrefix(e + nl, j, nl, i);
  }

  /** A free piece followed by a borderless `nl` is sealed. */
  lemma BorderlessSeals(e: string, nl: Newline)
    requires Free(e, nl) && Borderless(nl)
    ensures Sealed(e, nl)
  {
    forall i: nat | i < |e| ensures !MatchAt(e + nl, i, nl) {
      NoStraddle(e, "", nl, i);
      assert e + nl + "" == e + nl;
    }
  }

  /** A free piece in front of separable pieces, sealed when anything
      follows it, keeps them separable. */
  lemma SeparableCons(x: string, segs: seq<string>, nl: Newline)
    requires Free(x, nl) && Separable(segs, nl) && (segs != [] ==> Sealed(x, nl))
    ensures Separable([x] + segs, nl)
  {
    var r := [x] + segs;
    forall k | 0 < k < |r| ensures r[k] == segs[k - 1] {}
  }

  /** A character that does not start an occurrence of `nl` in front of a
      free piece makes a free piece. */
  lemma FreeGlue(c: char, e: string, nl: Newline, x: string)
    requires Free(e, nl) && !MatchAt([c] + e + x, 0, nl)
    ensures Free([c] + e, nl)
  {
    var h := [c] + e;
    forall i: nat | i < |h| ensures !MatchAt(h, i, nl) {
      if i == 0 {
        if |nl| <= |h| {
          assert [c] + e + x == h + x;
          MatchInPrefix(h, x, nl, 0);
        }
      } else if i + |nl| <= |h| {
        assert !MatchAt(e, i - 1, nl);
        assert h[i..i + |nl|] == e[i - 1..i - 1 + |nl|];
      }
    }
  }

  /** The pieces of any split are separable: the scan that cut a piece found
      no occurrence of `nl` starting inside it, and what followed the piece
      was `nl` itself. */
  lemma {:induction false} SplitPiecesSeparable(s: string, nl: Newline)
    ensures Separable(Split(s, nl), nl)
    decreases |s|
  {
    if |s| == 0 {
      assert Split(s, nl) == [""];
      assert Free("", nl);
    } else if MatchAt(s, 0, nl) {
      var u := Split(s[|nl|..], nl);
      SplitPiecesSeparable(s[|nl|..], nl);
      assert Free("", nl) && Sealed("", nl);
      SeparableCons("", u, nl);
    } else {
      var t := Split(s[1..], nl);
      SplitPiecesSeparable(s[1..], nl);
      SplitHeadPrefix(s[1..], nl);
      var x := s[1..][|t[0]|..];
      assert s == [s[0]] + t[0] + x;
      FreeGlue(s[0], t[0], nl, x);
      if |t| > 1 {
        var j := Join(t[1..], nl);
        JoinSplit(s[1..], nl);
        JoinCons(t[0], t[1..], nl);
        assert t == [t[0]] + t[1..];
        assert s == [s[0]] + t[0] + nl + j;
        SealedGlue(s[0], t[0], nl, j);
      }
      SeparableTail(t, nl);
      SeparableCons([s[0]] + t[0], t[1..], nl);
    }
  }

  /** Every piece of a split is free of the newline string. */
  lemma SplitPiecesFree(s: string, nl: Newline)
    ensures forall e :: e in Split(s, nl) ==> Free(e, nl)
  {
    SplitPiecesSeparable(s, nl);
  }

  /** Removing empty pieces keeps the pieces separable: a piece that is not
      last among the survivors was not last among the originals. */
  lemma {:induction false} DropEmptySeparable(segs: seq<string>, nl: Newline)
    requires Separable(segs, nl)
    ensures Separable(DropEmpty(segs), nl)
  {
    if segs != [] {
      var rest := segs[1..];
      SeparableTail(segs, nl);
      DropEmptySeparable(rest, nl);
      if |segs[0]| > 0 {
        var d := DropEmpty(rest);
        assert Free(segs[0], nl);
        if d != [] {
          assert Sealed(segs[0], nl);
        }
        SeparableCons(segs[0], d, nl);
      }
    }
  }

  /** Splitting the join of separable pieces gives the pieces back. */
  lemma {:induction false} SplitJoinSeparable(segs: seq<string>, nl: Newline)
    requires |segs| >= 1 && Separable(segs, nl)
    ensures Split(Join(segs, nl), nl) == segs
  {
    var e := segs[0];
    assert Free(e, nl);
    if |segs| == 1 {
      assert e + "" == e;
      SplitAfterFreePrefix(e, "", nl);
    } else {
      var rest := segs[1..];
      var j := Join(rest, nl);
      assert Join(segs, nl) == e + (nl + j);
      assert Sealed(e, nl);
      forall i: nat | i < |e| ensures !MatchAt(e + (nl + j), i, nl) {
        SealedStraddle(e, j, nl, i);
        assert e + (nl + j) == e + nl + j;
      }
      SplitAfterFreePrefix(e, nl + j, nl);
      assert MatchAt(nl + j, 0, nl);
      assert (nl + j)[|nl|..] == j;
      SeparableTail(segs, nl);
      SplitJoinSeparable(rest, nl);
      var sj := Split(nl + j, nl);
      assert sj == [""] + rest;
      assert e + sj[0] == e && sj[1..] == rest;
      assert segs == [e] + rest;
    }
  }

  /** Splitting the join of pieces free of a borderless `nl` gives the pieces
      back. A newline string with a border needs more: with "aa", the pieces
      "a" and "b" join to "aaab", which splits into "" and "ab". */
  lemma SplitJoin(segs: seq<string>, nl: Newline)
    requires |segs| >= 1 && Borderless(nl)
    requires forall e :: e in segs ==> Free(e, nl)
    ensures Split(Join(segs, nl), nl) == segs
  {
    forall k | 0 <= k < |segs| ensures Free(segs[k], nl) && Sealed(segs[k], nl) {
      assert segs[k] in segs;
      BorderlessSeals(segs[k], nl);
    }
    SplitJoinSeparable(segs, nl);
  }

  /** Why `SplitJoin` asks for a borderless newline string: with "aa", the
      pieces "a" and "b" are each free of it, yet their join "aaab" splits
      into "" and "ab". */
  lemma BorderedNewlineBreaksSplitJoin()
    ensures Join(["a", "b"], "aa") == "aaab"
    ensures Split("aaab", "aa") == ["", "ab"]
    ensures Free("a", "aa") && Free("b", "aa") && !Borderless("aa")
  {
    var aa: Newline := "aa";
    assert IsBorder(aa, 1);
    var b, ab := "b", "ab";
    assert Split(b, aa) == [b] by {
      assert b[1..] == "";
      assert Split(b[1..], aa) == [""];
      assert [b[0]] + "" == b;
    }
    assert Split(ab, aa) == [ab] by {
      assert ab[1..] == b;
      assert !MatchAt(ab, 0, aa);
      assert [ab[0]] + b == ab;
    }
    assert MatchAt("aaab", 0, aa) && "aaab"[2..] == "ab";
  }

  // ---------------------------------------------------------------------
  // What the blank-line stripper guarantees
  // ---------------------------------------------------------------------

  /** The stripped text splits into exactly the non-empty lines of the
      original text, in order; if there are none, the stripped text is empty. */
  lemma StripSplitsIntoNonEmptyLines(text: string, nl: Newline)
    ensures var lines := DropEmpty(Split(text, nl));
            if lines == [] then StripEmptyLines(text, nl) == ""
            else Split(StripEmptyLines(text, nl), nl) == lines
  {
    var lines := DropEmpty(Split(text, nl));
    if lines != [] {
      SplitPiecesSeparable(text, nl);
      DropEmptySeparable(Split(text, nl), nl);
      SplitJoinSeparable(lines, nl);
    }
  }

  /** Splitting the stripped text on `nl` yields no zero-length line (unless the
      stripped text is itself empty). */
  lemma StripLeavesNoEmptyLine(text: string, nl: Newline)
    ensures var r := StripEmptyLines(text, nl);
            r == "" || forall e :: e in Split(r, nl) ==> |e| > 0
  {
    StripSplitsIntoNonEmptyLines(text, nl);
  }

  /** Stripping twice is the same as stripping once. */
  lemma StripIdempotent(text: string, nl: Newline)
    ensures StripEmptyLines(StripEmptyLines(text, nl), nl) == StripEmptyLines(text, nl)
  {
    StripSplitsIntoNonEmptyLines(text, nl);
    var lines := DropEmpty(Split(text, nl));
    if lines == [] {
      assert Split("", nl) == [""];
      assert DropEmpty([""]) == [];
    }
  }

  /** A text without zero-length lines is left as it is. */
  lemma StripKeepsTextWithoutEmptyLines(text: string, nl: Newline)
    requires forall e :: e in Split(text, nl) ==> |e| > 0
    ensures StripEmptyLines(text, nl) == text
  {
    JoinSplit(text, nl);
  }

  /** A line survives stripping exactly when it is not zero-length; a line
      holding only blanks is not zero-length, so it stays. */
  lemma StripKeepsNonEmptyLines(text: string, nl: Newline)
    ensures forall e :: |e| > 0 ==> (e in Split(StripEmptyLines(text, nl), nl) <==> e in Split(text, nl))
  {
    StripSplitsIntoNonEmptyLines(text, nl);
    DropEmptyMembers(Split(text, nl));
    assert Split("", nl) == [""];
  }
}
