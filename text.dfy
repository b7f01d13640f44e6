/**
 * The string operations the to-do store relies on, restricted to ASCII:
 * Python's `str.strip()`, `str.lower()`, `needle in hay`, `str.endswith`
 * and `str.split()[0]`.
 */
module Text {

  /** Python's `str.isspace` on ASCII: space, tab to carriage return, and the separators 0x1C-0x1F. */
  predicate IsSpace(c: char) {
    c == ' ' || ('\t' <= c <= '\r') || ('\U{1C}' <= c <= '\U{1F}')
  }

  predicate AllSpace(s: string) {
    forall i :: 0 <= i < |s| ==> IsSpace(s[i])
  }

  /** Drops leading whitespace: the result is a suffix of `s` preceded only by whitespace. */
  function TrimStart(s: string): (r: string)
    ensures |r| <= |s| && r == s[|s| - |r|..]
    ensures AllSpace(s[..|s| - |r|])
    ensures r == [] || !IsSpace(r[0])
  {
    if s != [] && IsSpace(s[0]) then
      var r := TrimStart(s[1..]);
      assert s[..|s| - |r|] == [s[0]] + s[1..][..|s| - 1 - |r|];
      r
    else
      s
  }

  /** Drops trailing whitespace: the result is a prefix of `s` followed only by whitespace. */
  function TrimEnd(s: string): (r: string)
    ensures |r| <= |s| && r == s[..|r|]
    ensures AllSpace(s[|r|..])
    ensures r == [] || !IsSpace(r[|r| - 1])
  {
    if s != [] && IsSpace(s[|s| - 1]) then
      var r := TrimEnd(s[..|s| - 1]);
      assert s[|r|..] == s[..|s| - 1][|r|..] + [s[|s| - 1]];
      r
    else
      s
  }

  /**
   * `str.strip()`: the slice of `s` left after removing whitespace at both
   * ends. It is empty exactly when `s` is all whitespace.
   */
  function Strip(s: string): (r: string)
    ensures r == [] <==> AllSpace(s)
    ensures r != [] ==> !IsSpace(r[0]) && !IsSpace(r[|r| - 1])
    ensures StrippedSlice(s, r, |s| - |TrimStart(s)|)
  {
    var t := TrimStart(s);
    var r := TrimEnd(t);
    StripEmpty(s, t, r);
    StripSlice(s, t, r);
    r
  }

  /** `r` is `s[i..i + |r|]`, with only whitespace before and after it. */
  ghost predicate StrippedSlice(s: string, r: string, i: int) {
    0 <= i && i + |r| <= |s| && r == s[i..i + |r|] && AllSpace(s[..i]) && AllSpace(s[i + |r|..])
  }

  lemma StripEmpty(s: string, t: string, r: string)
    requires |t| <= |s| && t == s[|s| - |t|..] && AllSpace(s[..|s| - |t|]) && (t == [] || !IsSpace(t[0]))
    requires |r| <= |t| && r == t[..|r|] && AllSpace(t[|r|..])
    ensures r == [] <==> AllSpace(s)
  {
    var i := |s| - |t|;
    if r != [] {
      assert r[0] == t[0] == s[i];
    }
  }

  lemma StripSlice(s: string, t: string, r: string)
    requires |t| <= |s| && t == s[|s| - |t|..] && AllSpace(s[..|s| - |t|])
    requires |r| <= |t| && r == t[..|r|] && AllSpace(t[|r|..])
    ensures StrippedSlice(s, r, |s| - |t|)
  {
    var i := |s| - |t|;
    assert t == s[i..];
    assert AllSpace(s[..i]);
    assert r == s[i..i + |r|] by {
      assert s[i..][..|r|] == s[i..i + |r|];
    }
    assert AllSpace(s[i + |r|..]) by {
      assert s[i..][|r|..] == s[i + |r|..];
    }
  }

  /** Stripping twice is stripping once: a stripped text is its own strip. */
  lemma StripIdempotent(s: string)
    ensures Strip(Strip(s)) == Strip(s)
  {
  }

  function LowerChar(c: char): (l: char)
    ensures 'A' <= c <= 'Z' ==> 'a' <= l <= 'z'
    ensures !('A' <= c <= 'Z') ==> l == c
  {
    if 'A' <= c <= 'Z' then (c as int - 'A' as int + 'a' as int) as char else c
  }

  /** `str.lower()` on ASCII: a character-wise map that keeps the length. */
  function Lower(s: string): (r: string)
    ensures |r| == |s|
    ensures forall i :: 0 <= i < |r| ==> !('A' <= r[i] <= 'Z')
    ensures forall i :: 0 <= i < |s| && 'A' <= s[i] <= 'Z' ==> r[i] as int == s[i] as int + 32
    ensures forall i :: 0 <= i < |s| && !('A' <= s[i] <= 'Z') ==> r[i] == s[i]
  {
    seq(|s|, i requires 0 <= i < |s| => LowerChar(s[i]))
  }

  /** `needle` occurs in `hay` starting at position `k`. */
  predicate OccursAt(hay: string, needle: string, k: nat) {
    k + |needle| <= |hay| && hay[k..k + |needle|] == needle
  }

  /** Python's substring test `needle in hay`, by scanning from the left. */
  predicate Contains(hay: string, needle: string)
    ensures Contains(hay, needle) ==> |needle| <= |hay|
    ensures |hay| == |needle| ==> (Contains(hay, needle) <==> hay == needle)
  {
    needle <= hay || (hay != [] && Contains(hay[1..], needle))
  }

  /** The scan finds the needle exactly when it occurs at some position. */
  lemma {:induction false} ContainsIffOccurs(hay: string, needle: string)
    ensures Contains(hay, needle) <==> exists k: nat :: OccursAt(hay, needle, k)
  {
    if needle <= hay {
      assert OccursAt(hay, needle, 0);
    } else if hay == [] {
      forall k: nat ensures !OccursAt(hay, needle, k) {
        assert OccursAt(hay, needle, k) ==> needle <= hay;
      }
    } else {
      ContainsIffOccurs(hay[1..], needle);
      if Contains(hay[1..], needle) {
        var k: nat :| OccursAt(hay[1..], needle, k);
        assert hay[k + 1..k + 1 + |needle|] == hay[1..][k..k + |needle|];
        assert OccursAt(hay, needle, k + 1);
      } else {
        forall k: nat ensures !OccursAt(hay, needle, k) {
          if k == 0 {
            assert OccursAt(hay, needle, k) ==> needle <= hay;
          } else {
            assert k + |needle| <= |hay| ==> hay[1..][k - 1..k - 1 + |needle|] == hay[k..k + |needle|];
            assert OccursAt(hay, needle, k) ==> OccursAt(hay[1..], needle, k - 1);
          }
        }
      }
    }
  }

  /** `s.endswith(suffix)`. */
  predicate EndsWith(s: string, suffix: string)
    ensures EndsWith(s, suffix) <==> |suffix| <= |s| && s == s[..|s| - |suffix|] + suffix
  {
    |suffix| <= |s| && s[|s| - |suffix|..] == suffix
  }

  /** Any text ending in `suffix` passes `endswith(suffix)`. */
  lemma EndsWithConcat(front: string, suffix: string)
    ensures EndsWith(front + suffix, suffix)
  {
    assert (front + suffix)[|front|..] == suffix;
  }

  /** The leading run of non-whitespace characters of `s`. */
  function TakeWord(s: string): (w: string)
    ensures w <= s
    ensures forall i :: 0 <= i < |w| ==> !IsSpace(w[i])
    ensures |w| == |s| || IsSpace(s[|w|])
  {
    if s == [] || IsSpace(s[0]) then [] else [s[0]] + TakeWord(s[1..])
  }

  /** When the first whitespace of `s` is at position `n`, the leading word is `s[..n]`. */
  lemma {:induction false} TakeWordUpTo(s: string, n: nat)
    requires n < |s| && IsSpace(s[n])
    requires forall i :: 0 <= i < n ==> !IsSpace(s[i])
    ensures TakeWord(s) == s[..n]
  {
    if n > 0 {
      TakeWordUpTo(s[1..], n - 1);
      assert s[..n] == [s[0]] + s[1..][..n - 1];
    }
  }

  /**
   * `s.split()[0]` when `s` holds a word: the first maximal run of
   * non-whitespace, which starts after the leading whitespace and ends at
   * the next whitespace or at the end of `s`.
   */
  function FirstWord(s: string): (w: string)
    ensures !AllSpace(s) ==> w != []
    ensures forall i :: 0 <= i < |w| ==> !IsSpace(w[i])
    ensures w <= TrimStart(s) && (|w| == |TrimStart(s)| || IsSpace(TrimStart(s)[|w|]))
  {
    var t := TrimStart(s);
    var w := TakeWord(t);
    assert !AllSpace(s) ==> t != [] by {
      if t == [] {
        assert s[..|s|] == s;
      }
    }
    w
  }
}
