/**
 * Pure text handling of the range selector: the generic filter, the
 * comma split of the canonical range string (index.tsx:132 and 472) and the
 * sanitiser applied to live editor text (index.tsx:253).
 */
module RangeText {

  /** `matchToken.COMMA`, the separator of a range list. */
  const COMMA: char := ','

  // ---------------------------------------------------------------------
  // Filter
  // ---------------------------------------------------------------------

  /** The elements of `s` that satisfy `keep`, in their original order. */
  function Filter<T(==,!new)>(keep: T -> bool, s: seq<T>): (r: seq<T>)
    ensures |r| <= |s|
    ensures forall i :: 0 <= i < |r| ==> keep(r[i])
  {
    if s == [] then []
    else
      var rest := Filter(keep, s[1..]);
      assert s == [s[0]] + s[1..];
      if keep(s[0]) then [s[0]] + rest else rest
  }

  /** A value is among the survivors exactly when it occurs in `s` and is kept. */
  lemma {:induction false} FilterMembers<T(!new)>(keep: T -> bool, s: seq<T>)
    ensures forall x :: x in Filter(keep, s) <==> x in s && keep(x)
  {
    if s != [] {
      FilterMembers(keep, s[1..]);
      assert s == [s[0]] + s[1..];
    }
  }

  /** Each kept value survives as often as it occurs; every other value is gone. */
  lemma {:induction false} FilterCounts<T(!new)>(keep: T -> bool, s: seq<T>)
    ensures forall x :: multiset(Filter(keep, s))[x] == if keep(x) then multiset(s)[x] else 0
  {
    if s != [] {
      FilterCounts(keep, s[1..]);
      assert s == [s[0]] + s[1..];
      assert multiset(s) == multiset{s[0]} + multiset(s[1..]);
    }
  }

  /** `a` can be obtained from `b` by deleting elements, i.e. `a` keeps `b`'s order. */
  ghost predicate IsSubsequence<T>(a: seq<T>, b: seq<T>)
  {
    if a == [] then true
    else if b == [] then false
    else if a[0] == b[0] then IsSubsequence(a[1..], b[1..])
    else IsSubsequence(a, b[1..])
  }

  /** Filtering never reorders: the survivors appear in `s` in the same order. */
  lemma {:induction false} FilterIsSubsequence<T(!new)>(keep: T -> bool, s: seq<T>)
    ensures IsSubsequence(Filter(keep, s), s)
  {
    if s != [] {
      FilterIsSubsequence(keep, s[1..]);
      var r := Filter(keep, s);
      if !keep(s[0]) && r != [] {
        assert keep(r[0]);
        assert r[0] != s[0];
      }
    }
  }

  lemma {:induction false} FilterAppend<T(!new)>(keep: T -> bool, a: seq<T>, b: seq<T>)
    ensures Filter(keep, a + b) == Filter(keep, a) + Filter(keep, b)
  {
    if a == [] {
      assert a + b == b;
    } else {
      assert (a + b)[1..] == a[1..] + b;
      FilterAppend(keep, a[1..], b);
      var head := if keep(a[0]) then [a[0]] else [];
      assert Filter(keep, a + b) == head + Filter(keep, a[1..] + b);
      assert Filter(keep, a) == head + Filter(keep, a[1..]);
    }
  }

  /** When every element is kept, filtering changes nothing. */
  lemma {:induction false} FilterKeepsAll<T(!new)>(keep: T -> bool, s: seq<T>)
    requires forall i :: 0 <= i < |s| ==> keep(s[i])
    ensures Filter(keep, s) == s
  {
    if s != [] {
      FilterKeepsAll(keep, s[1..]);
    }
  }

  // ---------------------------------------------------------------------
  // Split and join on commas
  // ---------------------------------------------------------------------

  /** JavaScript's split on a comma: the comma-free pieces between commas, empty ones included. */
  function Split(s: string): (r: seq<string>)
    ensures |r| >= 1
    ensures forall i :: 0 <= i < |r| ==> COMMA !in r[i]
  {
    if s == [] then [[]]
    else
      var rest := Split(s[1..]);
      if s[0] == COMMA then [[]] + rest
      else [[s[0]] + rest[0]] + rest[1..]
  }

  /** JavaScript's join with a comma separator. */
  function Join(parts: seq<string>): (r: string)
    ensures parts == [] ==> r == []
    ensures |parts| >= 1 ==> |parts[0]| <= |r| && r[..|parts[0]|] == parts[0]
    ensures COMMA in r <==> |parts| >= 2 || (|parts| == 1 && COMMA in parts[0])
  {
    if parts == [] then []
    else if |parts| == 1 then parts[0]
    else parts[0] + [COMMA] + Join(parts[1..])
  }

  /** Joining the pieces of a split gives back the string. */
  lemma {:induction false} JoinSplit(s: string)
    ensures Join(Split(s)) == s
  {
    if s != [] {
      JoinSplit(s[1..]);
      var rest := Split(s[1..]);
      if s[0] == COMMA {
        assert Split(s)[1..] == rest;
        assert s == [COMMA] + s[1..];
      } else {
        if |rest| == 1 {
          assert Join(rest) == rest[0];
        } else {
          assert Join(rest) == rest[0] + [COMMA] + Join(rest[1..]);
          var r := Split(s);
          assert r[1..] == rest[1..];
          assert Join(r) == r[0] + [COMMA] + Join(rest[1..]);
        }
        assert s == [s[0]] + s[1..];
      }
    }
  }

  lemma {:induction false} SplitPrefix(p: string, t: string)
    requires COMMA !in p
    ensures Split(p + t) == [p + Split(t)[0]] + Split(t)[1..]
  {
    if p != [] {
      assert (p + t)[1..] == p[1..] + t;
      SplitPrefix(p[1..], t);
      assert [p[0]] + (p[1..] + Split(t)[0]) == p + Split(t)[0];
    } else {
      assert p + t == t;
      assert Split(t) == [Split(t)[0]] + Split(t)[1..];
      assert p + Split(t)[0] == Split(t)[0];
    }
  }

  /** Splitting a join of comma-free pieces gives back the pieces. */
  lemma {:induction false} SplitJoin(parts: seq<string>)
    requires |parts| >= 1
    requires forall i :: 0 <= i < |parts| ==> COMMA !in parts[i]
    ensures Split(Join(parts)) == parts
  {
    if |parts| == 1 {
      SplitPrefix(parts[0], []);
      assert parts[0] + [] == parts[0];
    } else {
      SplitJoin(parts[1..]);
      var t := [COMMA] + Join(parts[1..]);
      assert parts[0] + [COMMA] + Join(parts[1..]) == parts[0] + t;
      SplitPrefix(parts[0], t);
      assert t[1..] == Join(parts[1..]);
      assert Split(t) == [[]] + parts[1..];
      assert parts[0] + [] == parts[0];
    }
  }

  predicate NonEmpty(piece: string) { piece != [] }

  /** The range texts of a range string: its comma pieces with the empty ones dropped (index.tsx:132, 472). */
  function SplitRanges(s: string): (r: seq<string>)
    ensures forall i :: 0 <= i < |r| ==> r[i] != [] && COMMA !in r[i]
  {
    FilterMembers(NonEmpty, Split(s));
    Filter(NonEmpty, Split(s))
  }

  /** The non-empty segments, in their order, are exactly the listed pieces. */
  lemma SplitRangesOrder(s: string)
    ensures IsSubsequence(SplitRanges(s), Split(s))
    ensures forall piece :: piece in Split(s) && piece != [] <==> piece in SplitRanges(s)
    ensures forall piece ::
      multiset(SplitRanges(s))[piece] == (if piece != [] then multiset(Split(s))[piece] else 0)
  {
    FilterIsSubsequence(NonEmpty, Split(s));
    FilterMembers(NonEmpty, Split(s));
    FilterCounts(NonEmpty, Split(s));
  }

  /** A well-formed range list: comma-separated non-empty pieces. */
  ghost predicate IsRangeList(s: string)
  {
    s == [] || (s[0] != COMMA && s[|s| - 1] != COMMA && NoAdjacentCommas(s))
  }

  lemma {:induction false} SplitOfRangeListNonEmpty(s: string)
    requires s != [] && IsRangeList(s)
    ensures forall i :: 0 <= i < |Split(s)| ==> Split(s)[i] != []
  {
    var t := s[1..];
    if t != [] {
      if t[0] == COMMA {
        assert |t| >= 2;
        assert t[1] == s[2];
        var u := t[1..];
        assert u[|u| - 1] == s[|s| - 1];
        assert NoAdjacentCommas(u) by {
          forall i | 0 <= i < |u| - 1 ensures !(u[i] == COMMA && u[i + 1] == COMMA) {
            assert u[i] == s[i + 2] && u[i + 1] == s[i + 3];
          }
        }
        SplitOfRangeListNonEmpty(u);
        assert Split(t) == [[]] + Split(u);
        assert Split(t)[1..] == Split(u);
        assert [s[0]] + Split(t)[0] == [s[0]];
        assert Split(s) == [[s[0]]] + Split(u);
      } else {
        assert t[|t| - 1] == s[|s| - 1];
        assert NoAdjacentCommas(t) by {
          forall i | 0 <= i < |t| - 1 ensures !(t[i] == COMMA && t[i + 1] == COMMA) {
            assert t[i] == s[i + 1] && t[i + 1] == s[i + 2];
          }
        }
        SplitOfRangeListNonEmpty(t);
      }
    }
  }

  /** A well-formed range list is the join of its split: nothing is lost or reordered. */
  lemma JoinSplitRanges(s: string)
    requires IsRangeList(s)
    ensures Join(SplitRanges(s)) == s
  {
    JoinSplit(s);
    if s != [] {
      SplitOfRangeListNonEmpty(s);
      FilterKeepsAll(NonEmpty, Split(s));
    }
  }

  /**
   * Texts that are non-empty and comma-free, joined with commas, split back
   * into exactly those texts (the range list written at index.tsx:117 and 314
   * and read back at 132).
   */
  lemma JoinedTextsSplitBack(texts: seq<string>)
    requires forall i :: 0 <= i < |texts| ==> texts[i] != [] && COMMA !in texts[i]
    ensures SplitRanges(Join(texts)) == texts
  {
    if texts == [] {
      assert Split([]) == [[]];
      assert Filter(NonEmpty, [[]]) == [];
    } else {
      SplitJoin(texts);
      FilterKeepsAll(NonEmpty, texts);
    }
  }

  // ---------------------------------------------------------------------
  // The sanitiser of index.tsx:253
  // ---------------------------------------------------------------------

  ghost predicate NoAdjacentCommas(s: string)
  {
    forall i :: 0 <= i < |s| - 1 ==> !(s[i] == COMMA && s[i + 1] == COMMA)
  }

  predicate NotLineBreak(c: char) { c != '\n' && c != '\r' }

  /** The first replacement of index.tsx:253: every line feed and carriage return is deleted. */
  function StripLineBreaks(s: string): (r: string)
    ensures '\n' !in r && '\r' !in r
  {
    Filter(NotLineBreak, s)
  }

  /** The second replacement of index.tsx:253: every run of two or more commas becomes one comma. */
  function CollapseCommas(s: string): (r: string)
    ensures NoAdjacentCommas(r)
    ensures forall c :: c in r ==> c in s
    ensures COMMA in s ==> COMMA in r
    ensures (|r| > 0 && r[0] == COMMA) <==> (|s| > 0 && s[0] == COMMA)
  {
    if s == [] then []
    else if |s| >= 2 && s[0] == COMMA && s[1] == COMMA then CollapseCommas(s[1..])
    else
      var rest := CollapseCommas(s[1..]);
      assert forall c :: c in rest ==> c in s by {
        assert forall c :: c in s[1..] ==> c in s;
      }
      assert COMMA in s && s[0] != COMMA ==> COMMA in s[1..];
      [s[0]] + rest
  }

  /** The third replacement of index.tsx:253: one comma at the very start is removed. */
  function DropLeadingComma(s: string): (r: string)
    ensures |s| > 0 && s[0] == COMMA ==> s == [COMMA] + r
    ensures !(|s| > 0 && s[0] == COMMA) ==> r == s
    ensures NoAdjacentCommas(s) ==> !(|r| > 0 && r[0] == COMMA)
  {
    if |s| > 0 && s[0] == COMMA then s[1..] else s
  }

  /** What the three replacements leave behind. */
  ghost predicate IsSanitized(s: string)
  {
    '\n' !in s && '\r' !in s && NoAdjacentCommas(s) && !(|s| > 0 && s[0] == COMMA)
  }

  /** The text the inline editor keeps after every input event (index.tsx:253). */
  function Sanitize(text: string): (r: string)
    ensures IsSanitized(r)
  {
    var c := CollapseCommas(StripLineBreaks(text));
    var r := DropLeadingComma(c);
    assert forall ch :: ch in r ==> ch in c;
    assert NoAdjacentCommas(r) by {
      if |c| > 0 && c[0] == COMMA {
        forall i | 0 <= i < |r| - 1 ensures !(r[i] == COMMA && r[i + 1] == COMMA) {
          assert r[i] == c[i + 1] && r[i + 1] == c[i + 2];
        }
      }
    }
    assert |c| > 1 && c[0] == COMMA ==> c[1] != COMMA;
    r
  }

  lemma {:induction false} CollapseCommasFixes(s: string)
    requires NoAdjacentCommas(s)
    ensures CollapseCommas(s) == s
  {
    if s != [] {
      assert NoAdjacentCommas(s[1..]) by {
        forall i | 0 <= i < |s| - 2 ensures !(s[1..][i] == COMMA && s[1..][i + 1] == COMMA) {
          assert s[1..][i] == s[i + 1] && s[1..][i + 1] == s[i + 2];
        }
      }
      CollapseCommasFixes(s[1..]);
      assert s == [s[0]] + s[1..];
    }
  }

  /** Already-sanitised text is left alone. */
  lemma SanitizeFixes(s: string)
    requires IsSanitized(s)
    ensures Sanitize(s) == s
  {
    FilterKeepsAll(NotLineBreak, s);
    CollapseCommasFixes(s);
  }

  /** Sanitising twice is sanitising once. */
  lemma SanitizeIdempotent(text: string)
    ensures Sanitize(Sanitize(text)) == Sanitize(text)
  {
    SanitizeFixes(Sanitize(text));
  }

  /** A string splits into a single piece exactly when it has no comma. */
  lemma {:induction false} SplitSingle(x: string)
    ensures |Split(x)| == 1 <==> COMMA !in x
  {
    if x != [] {
      SplitSingle(x[1..]);
      assert x == [x[0]] + x[1..];
    }
  }

  function LastPiece(x: string): string
  {
    Split(x)[|Split(x)| - 1]
  }

  lemma LastPieceAfterComma(x: string)
    ensures LastPiece([COMMA] + x) == LastPiece(x)
  {
    assert ([COMMA] + x)[1..] == x;
    assert Split([COMMA] + x) == [[]] + Split(x);
  }

  lemma LastPieceAfterChar(c: char, x: string)
    requires c != COMMA
    ensures LastPiece([c] + x) == if COMMA in x then LastPiece(x) else [c] + x
  {
    assert ([c] + x)[1..] == x;
    var sx := Split(x);
    assert Split([c] + x) == [[c] + sx[0]] + sx[1..];
    SplitSingle(x);
    if COMMA !in x {
      JoinSplit(x);
      assert sx == [sx[0]];
    }
  }

  lemma {:induction false} CollapseCommasKeepsLastPiece(s: string)
    ensures LastPiece(CollapseCommas(s)) == LastPiece(s)
  {
    if s != [] {
      var t := s[1..];
      assert s == [s[0]] + t;
      CollapseCommasKeepsLastPiece(t);
      var ct := CollapseCommas(t);
      if |s| >= 2 && s[0] == COMMA && s[1] == COMMA {
        LastPieceAfterComma(t);
      } else {
        assert CollapseCommas(s) == [s[0]] + ct;
        if s[0] == COMMA {
          LastPieceAfterComma(t);
          LastPieceAfterComma(ct);
        } else {
          LastPieceAfterChar(s[0], t);
          LastPieceAfterChar(s[0], ct);
          if COMMA !in t {
            CollapseCommasFixes(t);
          }
        }
      }
    }
  }

  lemma {:induction false} CollapseCommasKeepsRanges(s: string)
    ensures Split(CollapseCommas(s))[0] == Split(s)[0]
    ensures SplitRanges(CollapseCommas(s)) == SplitRanges(s)
  {
    if s != [] {
      var t := s[1..];
      CollapseCommasKeepsRanges(t);
      if |s| >= 2 && s[0] == COMMA && s[1] == COMMA {
        assert Split(s) == [[]] + Split(t);
        FilterAppend(NonEmpty, [[]], Split(t));
        assert Split(t)[0] == [] by {
          assert t == [COMMA] + t[1..];
        }
      } else {
        var ct := CollapseCommas(t);
        assert CollapseCommas(s) == [s[0]] + ct;
        assert ([s[0]] + ct)[1..] == ct;
        if s[0] == COMMA {
          assert Split(s) == [[]] + Split(t);
          assert Split([s[0]] + ct) == [[]] + Split(ct);
          FilterAppend(NonEmpty, [[]], Split(t));
          FilterAppend(NonEmpty, [[]], Split(ct));
        } else {
          var st, sc := Split(t), Split(ct);
          assert Split(s) == [[s[0]] + st[0]] + st[1..];
          assert Split([s[0]] + ct) == [[s[0]] + sc[0]] + sc[1..];
          assert st == [st[0]] + st[1..];
          assert sc == [sc[0]] + sc[1..];
          FilterAppend(NonEmpty, [st[0]], st[1..]);
          FilterAppend(NonEmpty, [sc[0]], sc[1..]);
          FilterAppend(NonEmpty, [[s[0]] + st[0]], st[1..]);
          FilterAppend(NonEmpty, [[s[0]] + sc[0]], sc[1..]);
          var head := Filter(NonEmpty, [st[0]]);
          assert Filter(NonEmpty, [sc[0]]) == head;
          var x, y := Filter(NonEmpty, st[1..]), Filter(NonEmpty, sc[1..]);
          assert head + x == head + y;
          assert x == (head + x)[|head|..];
          assert y == (head + y)[|head|..];
          assert x == y;
        }
      }
    }
  }

  /**
   * Collapsing comma runs keeps the first piece, the last piece and the range
   * list; with no two adjacent commas and the leading comma kept, this fixes
   * that every run of commas leaves exactly one comma behind.
   */
  lemma CollapseCommasKeepsPieces(s: string)
    ensures Split(CollapseCommas(s))[0] == Split(s)[0]
    ensures LastPiece(CollapseCommas(s)) == LastPiece(s)
    ensures SplitRanges(CollapseCommas(s)) == SplitRanges(s)
  {
    CollapseCommasKeepsRanges(s);
    CollapseCommasKeepsLastPiece(s);
  }

  /**
   * Collapsing comma runs and dropping a leading comma never change the
   * range list the text denotes: the sanitiser only removes line breaks
   * from the list's pieces.
   */
  lemma SanitizeKeepsRanges(text: string)
    ensures SplitRanges(Sanitize(text)) == SplitRanges(StripLineBreaks(text))
  {
    var c := CollapseCommas(StripLineBreaks(text));
    CollapseCommasKeepsRanges(StripLineBreaks(text));
    if |c| > 0 && c[0] == COMMA {
      assert c == [COMMA] + c[1..];
      assert Split(c) == [[]] + Split(c[1..]);
      FilterAppend(NonEmpty, [[]], Split(c[1..]));
    }
  }
}
