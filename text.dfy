/** The two string operations the program applies to every token it reads:
    `str.upper()` and `str.strip()`, restricted to ASCII. */
module Text {

  /** The ASCII characters that `str.strip()` removes: space, tab, line feed,
      vertical tab, form feed, carriage return and the four separators
      (codes 28 to 31). */
  predicate IsSpace(c: char)
  {
    c == ' ' || 9 <= c as int <= 13 || 28 <= c as int <= 31
  }

  /** `s` with its leading whitespace removed. */
  function TrimLeft(s: string): string
    decreases |s|
  {
    if s != [] && IsSpace(s[0]) then TrimLeft(s[1..]) else s
  }

  /** `s` with its trailing whitespace removed. */
  function TrimRight(s: string): string
    decreases |s|
  {
    if s != [] && IsSpace(s[|s| - 1]) then TrimRight(s[..|s| - 1]) else s
  }

  /** `s.strip()`. */
  function Trim(s: string): string
  {
    TrimRight(TrimLeft(s))
  }

  function UpperChar(c: char): char
  {
    if 'a' <= c <= 'z' then (c as int - 'a' as int + 'A' as int) as char else c
  }

  /** `s.upper()` on ASCII letters. */
  function Upper(s: string): string
  {
    seq(|s|, i requires 0 <= i < |s| => UpperChar(s[i]))
  }

  /** How a blood-type token is read: upper-cased, then stripped. */
  function Normalize(s: string): string
  {
    Trim(Upper(s))
  }

  /** `l` is `s` with a run of leading whitespace cut: a suffix of `s` that
      does not start with whitespace, all of whose cut characters are
      whitespace. */
  ghost predicate LeftCut(s: string, l: string)
  {
    && |l| <= |s| && l == s[|s| - |l|..]
    && (forall i :: 0 <= i < |s| - |l| ==> IsSpace(s[i]))
    && (l != [] ==> !IsSpace(l[0]))
  }

  /** `r` is `s` with a run of trailing whitespace cut: a prefix of `s` that
      does not end with whitespace, all of whose cut characters are
      whitespace. */
  ghost predicate RightCut(s: string, r: string)
  {
    && |r| <= |s| && r == s[..|r|]
    && (forall i :: |r| <= i < |s| ==> IsSpace(s[i]))
    && (r != [] ==> !IsSpace(r[|r| - 1]))
  }

  /** Stripping the left end cuts a run of whitespace and stops at the first
      other character. */
  lemma {:induction false} TrimLeftCuts(s: string)
    ensures LeftCut(s, TrimLeft(s))
    decreases |s|
  {
    if s != [] && IsSpace(s[0]) {
      var t, l := s[1..], TrimLeft(s[1..]);
      TrimLeftCuts(t);
      assert TrimLeft(s) == l;
      assert l == s[|s| - |l|..] by {
        assert t[|t| - |l|..] == s[|s| - |l|..];
      }
      forall i | 0 < i < |s| - |l| ensures IsSpace(s[i]) {
        assert s[i] == t[i - 1];
      }
    }
  }

  /** Stripping the right end cuts a run of whitespace and stops at the last
      other character. */
  lemma {:induction false} TrimRightCuts(s: string)
    ensures RightCut(s, TrimRight(s))
    decreases |s|
  {
    if s != [] && IsSpace(s[|s| - 1]) {
      var t, r := s[..|s| - 1], TrimRight(s[..|s| - 1]);
      TrimRightCuts(t);
      assert TrimRight(s) == r;
      assert r == s[..|r|] by {
        assert t[..|r|] == s[..|r|];
      }
      forall i | |r| <= i < |s| - 1 ensures IsSpace(s[i]) {
        assert s[i] == t[i];
      }
    }
  }

  /** `r` is what is left of `s` once stripped, starting at position `k`: a
      slice of `s` with only whitespace cut around it and no whitespace at
      either of its ends. */
  ghost predicate StripsTo(s: string, k: int, r: string)
  {
    && 0 <= k && k + |r| <= |s| && r == s[k..k + |r|]
    && (forall i :: 0 <= i < |s| && !(k <= i < k + |r|) ==> IsSpace(s[i]))
    && (r != [] ==> !IsSpace(r[0]) && !IsSpace(r[|r| - 1]))
  }

  /** Cutting a run of whitespace from the left of `s`, which leaves `l`,
      and then from the right of `l`, which leaves `r`, strips `s` to `r`. */
  lemma CutBothEnds(s: string, l: string, r: string)
    requires LeftCut(s, l) && RightCut(l, r)
    ensures StripsTo(s, |s| - |l|, r)
  {
    var k := |s| - |l|;
    assert r == s[k..k + |r|] by {
      assert l[..|r|] == s[k..k + |r|];
    }
    forall i | k + |r| <= i < |s| ensures IsSpace(s[i]) {
      assert l[i - k] == s[i];
    }
    if r != [] {
      assert r[0] == l[0];
    }
  }

  /** `strip()` keeps the slice of `s` that starts after its leading
      whitespace, cuts only whitespace around it, and leaves no whitespace at
      either end. */
  lemma TrimCuts(s: string)
    ensures StripsTo(s, |s| - |TrimLeft(s)|, Trim(s))
  {
    var l := TrimLeft(s);
    TrimLeftCuts(s);
    TrimRightCuts(l);
    CutBothEnds(s, l, TrimRight(l));
  }

  /** A string with no whitespace at either end is stripped to itself. */
  lemma TrimUnchanged(s: string)
    requires s == [] || (!IsSpace(s[0]) && !IsSpace(s[|s| - 1]))
    ensures Trim(s) == s
  {
  }

  /** Upper-casing keeps the length, turns each lower-case ASCII letter into
      the capital 32 code points below it and keeps every other character, so
      no lower-case letter is left and a second application changes nothing. */
  lemma UpperSpec(s: string)
    ensures |Upper(s)| == |s|
    ensures forall i :: 0 <= i < |s| && 'a' <= s[i] <= 'z' ==> Upper(s)[i] as int == s[i] as int - 32
    ensures forall i :: 0 <= i < |s| && !('a' <= s[i] <= 'z') ==> Upper(s)[i] == s[i]
    ensures forall i :: 0 <= i < |s| ==> !('a' <= Upper(s)[i] <= 'z')
    ensures Upper(Upper(s)) == Upper(s)
  {
    UpperUnchanged(Upper(s));
  }

  /** A string with no lower-case letter is upper-cased to itself. */
  lemma UpperUnchanged(s: string)
    requires forall i :: 0 <= i < |s| ==> !('a' <= s[i] <= 'z')
    ensures Upper(s) == s
  {
  }
}
