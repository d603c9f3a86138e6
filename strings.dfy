/**
 * The three string operations of the catalog view: `toLowerCase`,
 * `includes` and `trim` (sections 22.1.3.28, 22.1.3.8 and 22.1.3.32 of
 * ECMA-262), on strings as sequences of code points.
 */
module Strings {

  /* ---------------------------------------------------------------- */
  /* toLowerCase                                                       */
  /* ---------------------------------------------------------------- */

  /** Upper-case letters whose lower-case mapping this model knows:
      Basic Latin A..Z and the Cyrillic capitals U+0400..U+042F (Ѐ..Я). */
  predicate IsUpper(c: char)
  {
    ('A' <= c <= 'Z') || ('\U{0400}' <= c <= '\U{042F}')
  }

  /** Lower-case mapping of one character: А..Я and A..Z move up by 0x20,
      Ѐ..Џ (U+0400..U+040F, e.g. Ё) move up by 0x50; every other character
      maps to itself. */
  function LowerChar(c: char): (d: char)
    ensures IsUpper(c) <==> d != c
    ensures !IsUpper(d)
  {
    if 'A' <= c <= 'Z' then (c as int + 0x20) as char
    else if '\U{0410}' <= c <= '\U{042F}' then (c as int + 0x20) as char
    else if '\U{0400}' <= c <= '\U{040F}' then (c as int + 0x50) as char
    else c
  }

  /** `s.toLowerCase()`, character by character. */
  function Lower(s: string): (r: string)
    ensures |r| == |s|
    ensures forall k :: 0 <= k < |s| ==> !IsUpper(r[k])
  {
    if s == [] then [] else [LowerChar(s[0])] + Lower(s[1..])
  }

  lemma {:induction false} LowerAt(s: string, k: nat)
    requires k < |s|
    ensures Lower(s)[k] == LowerChar(s[k])
  {
    if k > 0 {
      LowerAt(s[1..], k - 1);
    }
  }

  /** Lower-casing is fixed by its value at every position. */
  lemma LowerPointwise(s: string, t: string)
    requires |s| == |t| && forall k :: 0 <= k < |s| ==> t[k] == LowerChar(s[k])
    ensures Lower(s) == t
  {
    forall k | 0 <= k < |s| ensures Lower(s)[k] == t[k] {
      LowerAt(s, k);
    }
  }

  /** Lower-casing a string that has no upper-case letter leaves it alone. */
  lemma {:induction false} LowerFixesLowerCase(s: string)
    requires forall k :: 0 <= k < |s| ==> !IsUpper(s[k])
    ensures Lower(s) == s
  {
    if s != [] {
      LowerFixesLowerCase(s[1..]);
    }
  }

  /** Lower-casing twice is lower-casing once. */
  lemma {:induction false} LowerIdempotent(s: string)
    ensures Lower(Lower(s)) == Lower(s)
  {
    LowerFixesLowerCase(Lower(s));
  }

  /* ---------------------------------------------------------------- */
  /* includes                                                          */
  /* ---------------------------------------------------------------- */

  /** `search` occurs in `s` starting at position `i`. */
  ghost predicate OccursAt(s: string, search: string, i: int)
  {
    0 <= i && i + |search| <= |s| && s[i..i + |search|] == search
  }

  predicate StartsWith(s: string, prefix: string)
  {
    |prefix| <= |s| && s[..|prefix|] == prefix
  }

  /** An occurrence of `search` in `s` is either at the start or one of
      the occurrences in `s` without its first character. */
  lemma OccursFirstOrLater(s: string, search: string)
    ensures (exists i :: OccursAt(s, search, i))
            <==> StartsWith(s, search) || (s != [] && exists i :: OccursAt(s[1..], search, i))
  {
    if StartsWith(s, search) {
      assert OccursAt(s, search, 0);
    } else if s == [] {
      forall i ensures !OccursAt(s, search, i) {
      }
    } else {
      if i :| OccursAt(s[1..], search, i) {
        assert s[i + 1..i + 1 + |search|] == s[1..][i..i + |search|];
        assert OccursAt(s, search, i + 1);
      } else {
        forall i | 0 < i && i + |search| <= |s| ensures !OccursAt(s, search, i) {
          assert s[1..][i - 1..i - 1 + |search|] == s[i..i + |search|];
          assert !OccursAt(s[1..], search, i - 1);
        }
        assert !OccursAt(s, search, 0);
      }
    }
  }

  /** `s.includes(search)`: tries every start position from the left, and
      holds exactly when the search string occurs somewhere in `s`. */
  function Includes(s: string, search: string): (r: bool)
    ensures r <==> exists i :: OccursAt(s, search, i)
  {
    OccursFirstOrLater(s, search);
    StartsWith(s, search) || (s != [] && Includes(s[1..], search))
  }

  /** Every string includes the empty string. */
  lemma IncludesEmpty(s: string)
    ensures Includes(s, [])
  {
  }

  /* ---------------------------------------------------------------- */
  /* trim                                                              */
  /* ---------------------------------------------------------------- */

  /** WhiteSpace and LineTerminator code points (sections 12.2 and 12.3 of
      ECMA-262): what `trim` removes. */
  predicate IsTrimmable(c: char)
  {
    c == '\U{9}' || c == '\U{A}' || c == '\U{B}' || c == '\U{C}' || c == '\U{D}'
    || c == ' ' || c == '\U{A0}' || c == '\U{1680}'
    || ('\U{2000}' <= c <= '\U{200A}')
    || c == '\U{2028}' || c == '\U{2029}' || c == '\U{202F}' || c == '\U{205F}'
    || c == '\U{3000}' || c == '\U{FEFF}'
  }

  ghost predicate AllTrimmable(s: string)
  {
    forall k :: 0 <= k < |s| ==> IsTrimmable(s[k])
  }

  /** Drops the leading white space. */
  function TrimStart(s: string): (r: string)
    ensures |r| <= |s| && r == s[|s| - |r|..]
    ensures AllTrimmable(s[..|s| - |r|])
    ensures r == [] || !IsTrimmable(r[0])
  {
    if s != [] && IsTrimmable(s[0]) then TrimStart(s[1..]) else s
  }

  /** Drops the trailing white space. */
  function TrimEnd(s: string): (r: string)
    ensures |r| <= |s| && r == s[..|r|]
    ensures AllTrimmable(s[|r|..])
    ensures r == [] || !IsTrimmable(r[|r| - 1])
  {
    if s != [] && IsTrimmable(s[|s| - 1]) then TrimEnd(s[..|s| - 1]) else s
  }

  /** `r` is `s` with white space, and only white space, cut off both ends. */
  ghost predicate StrippedOf(s: string, r: string)
  {
    exists i :: 0 <= i && i + |r| <= |s| && s[i..i + |r|] == r
                && AllTrimmable(s[..i]) && AllTrimmable(s[i + |r|..])
  }

  /** Cutting the leading, then the trailing white space leaves `s` stripped
      of white space at both ends. */
  lemma TrimBothEnds(s: string)
    ensures StrippedOf(s, TrimEnd(TrimStart(s)))
  {
    var t := TrimStart(s);
    var r := TrimEnd(t);
    var i := |s| - |t|;
    assert t == s[i..];
    assert r == s[i..i + |r|];
    assert t[|r|..] == s[i + |r|..];
    assert AllTrimmable(s[..i]) && AllTrimmable(s[i + |r|..]);
  }

  /** `s.trim()`. */
  function Trim(s: string): (r: string)
    ensures StrippedOf(s, r)
    ensures r == [] || (!IsTrimmable(r[0]) && !IsTrimmable(r[|r| - 1]))
  {
    TrimBothEnds(s);
    TrimEnd(TrimStart(s))
  }

  /** A string without white space at either end is its own trim. */
  lemma TrimFixesTrimmed(s: string)
    requires s == [] || (!IsTrimmable(s[0]) && !IsTrimmable(s[|s| - 1]))
    ensures Trim(s) == s
  {
  }

  /** Trimming twice is trimming once. */
  lemma {:induction false} TrimIdempotent(s: string)
    ensures Trim(Trim(s)) == Trim(s)
  {
    TrimFixesTrimmed(Trim(s));
  }
}
