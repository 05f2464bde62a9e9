/**
 * The two QString operations the hot-plug parser relies on:
 * `QString::split(sep)` (with the default KeepEmptyParts behaviour) and
 * `QString::trimmed()`.
 */
module QtText {

  /** True iff `p` is a prefix of `s`. */
  predicate IsPrefix(p: string, s: string) {
    |p| <= |s| && s[..|p|] == p
  }

  /** `sep` occurs in `s` starting at position `i`. */
  predicate OccursAt(s: string, sep: string, i: int) {
    0 <= i && i + |sep| <= |s| && s[i..i + |sep|] == sep
  }

  /** `sep` occurs somewhere in `s`. */
  predicate Contains(s: string, sep: string) {
    exists i :: 0 <= i <= |s| && OccursAt(s, sep, i)
  }

  /**
   * `QString::split(sep)`: scans left to right, cutting at every
   * non-overlapping occurrence of `sep` and keeping empty parts, so the
   * result always has at least one part.
   */
  function Split(s: string, sep: string): (parts: seq<string>)
    requires sep != []
    ensures |parts| >= 1
    ensures |parts| <= |s| + 1
    decreases |s|
  {
    if s == [] then [[]]
    else if IsPrefix(sep, s) then [[]] + Split(s[|sep|..], sep)
    else
      var rest := Split(s[1..], sep);
      [[s[0]] + rest[0]] + rest[1..]
  }

  /** `QStringList::join(sep)`: the inverse of `Split`. */
  function Join(parts: seq<string>, sep: string): string
    requires |parts| >= 1
    decreases |parts|
  {
    if |parts| == 1 then parts[0] else parts[0] + sep + Join(parts[1..], sep)
  }

  /** Putting the parts back together with the separator gives back the input. */
  lemma {:induction false} JoinSplit(s: string, sep: string)
    requires sep != []
    ensures Join(Split(s, sep), sep) == s
    decreases |s|
  {
    if s == [] {
    } else if IsPrefix(sep, s) {
      var rest := Split(s[|sep|..], sep);
      JoinSplit(s[|sep|..], sep);
      assert Split(s, sep) == [[]] + rest;
      JoinEmptyHead(rest, sep);
      assert s == sep + s[|sep|..];
    } else {
      var rest := Split(s[1..], sep);
      JoinSplit(s[1..], sep);
      assert Split(s, sep) == [[s[0]] + rest[0]] + rest[1..];
      JoinGlued(s[0], rest, sep);
      assert s == [s[0]] + s[1..];
    }
  }

  /** An empty first part contributes only its separator. */
  lemma JoinEmptyHead(rest: seq<string>, sep: string)
    requires |rest| >= 1
    ensures Join([[]] + rest, sep) == sep + Join(rest, sep)
  {
    assert ([[]] + rest)[1..] == rest;
  }

  /** A character glued to the first part comes out in front of the join. */
  lemma JoinGlued(c: char, rest: seq<string>, sep: string)
    requires |rest| >= 1
    ensures Join([[c] + rest[0]] + rest[1..], sep) == [c] + Join(rest, sep)
  {
    var parts := [[c] + rest[0]] + rest[1..];
    if |rest| > 1 {
      assert parts[1..] == rest[1..];
      assert Join(parts, sep) == ([c] + rest[0]) + sep + Join(rest[1..], sep);
      assert Join(rest, sep) == rest[0] + sep + Join(rest[1..], sep);
    }
  }

  /** No part of a split contains the separator: every occurrence was cut. */
  lemma {:induction false} SplitPartsAreFree(s: string, sep: string)
    requires sep != []
    ensures forall k :: 0 <= k < |Split(s, sep)| ==> !Contains(Split(s, sep)[k], sep)
    decreases |s|
  {
    if s == [] {
    } else if IsPrefix(sep, s) {
      SplitPartsAreFree(s[|sep|..], sep);
      var rest := Split(s[|sep|..], sep);
      assert Split(s, sep) == [[]] + rest;
      forall k | 0 <= k < |Split(s, sep)| ensures !Contains(Split(s, sep)[k], sep) {
        if k > 0 {
          assert Split(s, sep)[k] == rest[k - 1];
        }
      }
    } else {
      SplitPartsAreFree(s[1..], sep);
      var rest := Split(s[1..], sep);
      assert Split(s, sep) == [[s[0]] + rest[0]] + rest[1..];
      HeadPartIsFree(s, sep);
      forall k | 0 <= k < |Split(s, sep)| ensures !Contains(Split(s, sep)[k], sep) {
        if k > 0 {
          assert Split(s, sep)[k] == rest[k];
        }
      }
    }
  }

  /**
   * When `s` does not start with the separator, the first character glued
   * to the first part of the rest still contains no separator.
   */
  lemma HeadPartIsFree(s: string, sep: string)
    requires sep != [] && s != [] && !IsPrefix(sep, s)
    requires !Contains(Split(s[1..], sep)[0], sep)
    ensures !Contains([s[0]] + Split(s[1..], sep)[0], sep)
  {
    var rest := Split(s[1..], sep);
    JoinSplit(s[1..], sep);
    PartIsPrefix(rest, sep);
    GluedIsFree(s, rest[0], sep);
  }

  /**
   * Gluing the first character of `s` in front of a separator-free prefix
   * `p` of the rest cannot create a separator unless `s` starts with one.
   */
  lemma GluedIsFree(s: string, p: string, sep: string)
    requires sep != [] && s != [] && !IsPrefix(sep, s)
    requires IsPrefix(p, s[1..]) && !Contains(p, sep)
    ensures !Contains([s[0]] + p, sep)
  {
    var head := [s[0]] + p;
    assert head == s[..|head|];
    forall i | 0 <= i <= |head| ensures !OccursAt(head, sep, i) {
      if i == 0 {
        if |sep| <= |head| {
          assert head[..|sep|] == s[..|sep|];
        }
      } else if i + |sep| <= |head| {
        assert p[i - 1..i - 1 + |sep|] == head[i..i + |sep|];
        assert !OccursAt(p, sep, i - 1);
      }
    }
  }

  /**
   * The first cut is at the leftmost occurrence of the separator: when
   * there are several parts, the separator occurs right after the first
   * part and nowhere before it, and the remaining parts are the split of
   * what follows that occurrence.
   */
  lemma {:induction false} SplitFirstCut(s: string, sep: string)
    requires sep != []
    ensures FirstCut(s, sep, Split(s, sep))
    decreases |s|
  {
    if s == [] {
    } else if IsPrefix(sep, s) {
      assert Split(s, sep) == [[]] + Split(s[|sep|..], sep);
      LeadingCut(s, sep, Split(s[|sep|..], sep));
    } else {
      var rest := Split(s[1..], sep);
      SplitFirstCut(s[1..], sep);
      assert Split(s, sep) == [[s[0]] + rest[0]] + rest[1..];
      GluedCut(s, sep, rest);
    }
  }

  /**
   * `parts` splits `s` at the leftmost occurrence of `sep` first, the
   * later parts being the split of what follows it.
   */
  predicate FirstCut(s: string, sep: string, parts: seq<string>)
    requires sep != [] && |parts| >= 1
  {
    |parts| > 1 ==>
      && OccursAt(s, sep, |parts[0]|)
      && (forall j :: 0 <= j < |parts[0]| ==> !OccursAt(s, sep, j))
      && parts[1..] == Split(s[|parts[0]| + |sep|..], sep)
  }

  /** A split that starts at a separator cuts there first. */
  lemma LeadingCut(s: string, sep: string, rest: seq<string>)
    requires sep != [] && IsPrefix(sep, s) && rest == Split(s[|sep|..], sep)
    ensures FirstCut(s, sep, [[]] + rest)
  {
    assert ([[]] + rest)[1..] == rest;
    assert s[0 + |sep|..] == s[|sep|..];
  }

  /**
   * Gluing the first character of `s` to the first part of a split of the
   * rest keeps the first cut leftmost, when `s` does not start with `sep`.
   */
  lemma GluedCut(s: string, sep: string, rest: seq<string>)
    requires sep != [] && s != [] && !IsPrefix(sep, s)
    requires |rest| >= 1 && FirstCut(s[1..], sep, rest)
    ensures FirstCut(s, sep, [[s[0]] + rest[0]] + rest[1..])
  {
    var parts := [[s[0]] + rest[0]] + rest[1..];
    if |rest| > 1 {
      var n := |rest[0]|;
      OccursShift(s, sep, n);
      forall j | 0 <= j < n + 1 ensures !OccursAt(s, sep, j) {
        if j > 0 {
          OccursShift(s, sep, j - 1);
        }
      }
      assert parts[1..] == rest[1..];
      assert s[1..][n + |sep|..] == s[n + 1 + |sep|..];
    }
  }

  /**
   * A separator that overlaps itself is cut at its leftmost occurrence:
   * three line feeds split on a blank line leave the stray line feed in the
   * second part.
   */
  lemma SplitOverlappingSeparator()
    ensures Split("\n\n\n", "\n\n") == ["", "\n"]
  {
    var s := "\n\n\n";
    var t := "\n";
    assert !IsPrefix("\n\n", t) && t[1..] == "";
    assert Split("", "\n\n") == [""];
    assert [t[0]] + Split("", "\n\n")[0] == t;
    assert Split(t, "\n\n") == [[t[0]] + Split("", "\n\n")[0]];
    assert IsPrefix("\n\n", s) && s[2..] == t;
    assert Split(s, "\n\n") == [""] + Split(t, "\n\n");
  }

  /** An occurrence one position into `s` is an occurrence in `s[1..]`, and back. */
  lemma OccursShift(s: string, sep: string, j: int)
    requires s != [] && 0 <= j
    ensures OccursAt(s, sep, j + 1) <==> OccursAt(s[1..], sep, j)
  {
    if j + 1 + |sep| <= |s| {
      assert s[j + 1..j + 1 + |sep|] == s[1..][j..j + |sep|];
    }
  }

  /** A string without the separator splits into itself alone. */
  lemma SplitWithoutSep(s: string, sep: string)
    requires sep != [] && !Contains(s, sep)
    ensures Split(s, sep) == [s]
  {
    SplitFirstCut(s, sep);
    JoinSplit(s, sep);
  }

  /** The first part is a prefix of the joined string. */
  lemma PartIsPrefix(parts: seq<string>, sep: string)
    requires |parts| >= 1
    ensures IsPrefix(parts[0], Join(parts, sep))
  {
  }

  /**
   * `QChar::isSpace`: the Unicode separator characters (categories Zs, Zl,
   * Zp) and the control characters tab, line feed, vertical tab, form feed,
   * carriage return and next line.
   */
  predicate IsSpace(c: char) {
    || ('\t' <= c <= '\r')
    || c == ' '
    || c == '\U{85}'
    || c == '\U{A0}'
    || c == '\U{1680}'
    || ('\U{2000}' <= c <= '\U{200A}')
    || c == '\U{2028}'
    || c == '\U{2029}'
    || c == '\U{202F}'
    || c == '\U{205F}'
    || c == '\U{3000}'
  }

  /** Drops the leading white space of `s`. */
  function TrimStart(s: string): (r: string)
    ensures |r| <= |s| && r == s[|s| - |r|..]
    ensures forall k :: 0 <= k < |s| - |r| ==> IsSpace(s[k])
    ensures r == [] || !IsSpace(r[0])
  {
    if s != [] && IsSpace(s[0]) then TrimStart(s[1..]) else s
  }

  /** Drops the trailing white space of `s`. */
  function TrimEnd(s: string): (r: string)
    ensures |r| <= |s| && r == s[..|r|]
    ensures forall k :: |r| <= k < |s| ==> IsSpace(s[k])
    ensures r == [] || !IsSpace(r[|r| - 1])
  {
    if s != [] && IsSpace(s[|s| - 1]) then TrimEnd(s[..|s| - 1]) else s
  }

  /**
   * `QString::trimmed()`: the infix of `s` left after removing white space
   * at both ends. The result neither starts nor ends with white space, and
   * everything removed was white space.
   */
  function Trimmed(s: string): (r: string)
    ensures exists i :: TrimmedAt(s, r, i)
    ensures r == [] || (!IsSpace(r[0]) && !IsSpace(r[|r| - 1]))
  {
    TrimBothAt(s);
    TrimEnd(TrimStart(s))
  }

  /** Trimming the start and then the end leaves an infix with only white space around it. */
  lemma TrimBothAt(s: string)
    ensures TrimmedAt(s, TrimEnd(TrimStart(s)), |s| - |TrimStart(s)|)
  {
    var u := TrimStart(s);
    var i := |s| - |u|;
    assert u == s[i..];
    InfixTrimmedAt(s, u, TrimEnd(u), i);
  }

  /**
   * `t` is a prefix of the suffix `u` of `s` that starts at `i`; when
   * white space alone precedes `u` and follows `t`, `t` is `s` trimmed.
   */
  lemma InfixTrimmedAt(s: string, u: string, t: string, i: int)
    requires 0 <= i <= |s| && u == s[i..]
    requires |t| <= |u| && t == u[..|t|]
    requires forall k :: 0 <= k < i ==> IsSpace(s[k])
    requires forall k :: |t| <= k < |u| ==> IsSpace(u[k])
    ensures TrimmedAt(s, t, i)
  {
    assert s[i..i + |t|] == u[..|t|];
    forall k | i + |t| <= k < |s| ensures IsSpace(s[k]) {
      assert s[k] == u[k - i];
    }
  }

  /** `r` sits in `s` at offset `i`, with only white space around it. */
  predicate TrimmedAt(s: string, r: string, i: int) {
    && 0 <= i && i + |r| <= |s|
    && s[i..i + |r|] == r
    && (forall k :: 0 <= k < i ==> IsSpace(s[k]))
    && (forall k :: i + |r| <= k < |s| ==> IsSpace(s[k]))
  }

  /** Trimming twice is the same as trimming once. */
  lemma TrimmedIdempotent(s: string)
    ensures Trimmed(Trimmed(s)) == Trimmed(s)
  {
    var t := Trimmed(s);
    TrimmedOfTrimmed(t);
  }

  /** A string with no white space at either end is its own trimming. */
  lemma TrimmedOfTrimmed(t: string)
    requires t == [] || (!IsSpace(t[0]) && !IsSpace(t[|t| - 1]))
    ensures Trimmed(t) == t
  {
    assert TrimStart(t) == t;
    assert TrimEnd(t) == t;
  }
}
