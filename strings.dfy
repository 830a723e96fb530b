/**
 * The JavaScript string operations the analyzer relies on: `String.prototype.trim`,
 * `String.prototype.includes`, and the whitespace set that `trim` strips.
 * Text is a sequence of Unicode scalar values (`string` is `seq<char>`).
 */
module Strings {

  /** The characters ECMAScript's `trim` removes: WhiteSpace (TAB, VT, FF, SP, NBSP,
      ZWNBSP and every other space separator) and LineTerminator (LF, CR, LS, PS). */
  predicate IsWhitespace(c: char) {
    var n := c as int;
    || n == 0x09 || n == 0x0A || n == 0x0B || n == 0x0C || n == 0x0D
    || n == 0x20 || n == 0xA0 || n == 0x1680
    || (0x2000 <= n <= 0x200A)
    || n == 0x2028 || n == 0x2029 || n == 0x202F || n == 0x205F
    || n == 0x3000 || n == 0xFEFF
  }

  predicate AllWhitespace(s: string) {
    forall i :: 0 <= i < |s| ==> IsWhitespace(s[i])
  }

  predicate NoWhitespace(s: string) {
    forall i :: 0 <= i < |s| ==> !IsWhitespace(s[i])
  }

  /** Drops the leading whitespace: the result is the suffix of `s` that starts at
      the first non-whitespace character. */
  function TrimStart(s: string): (r: string)
    ensures |r| <= |s| && r == s[|s| - |r|..]
    ensures r == [] || !IsWhitespace(r[0])
    ensures AllWhitespace(s[..|s| - |r|])
  {
    if s != [] && IsWhitespace(s[0]) then TrimStart(s[1..]) else s
  }

  /** Drops the trailing whitespace: the result is the prefix of `s` that ends at
      the last non-whitespace character. */
  function TrimEnd(s: string): (r: string)
    ensures |r| <= |s| && r == s[..|r|]
    ensures r == [] || !IsWhitespace(r[|r| - 1])
    ensures AllWhitespace(s[|r|..])
  {
    if s != [] && IsWhitespace(s[|s| - 1]) then
      var r := TrimEnd(s[..|s| - 1]);
      assert s[..|s| - 1][..|r|] == s[..|r|];
      assert s[|r|..] == s[..|s| - 1][|r|..] + [s[|s| - 1]];
      r
    else s
  }

  /** `s.trim()`: empty exactly when `s` is all whitespace, and otherwise starting and
      ending with a non-whitespace character. TrimIsSlice states which slice of `s`
      it is. */
  function Trim(s: string): (r: string)
    ensures r == [] <==> AllWhitespace(s)
    ensures r != [] ==> !IsWhitespace(r[0]) && !IsWhitespace(r[|r| - 1])
  {
    var t := TrimStart(s);
    var r := TrimEnd(t);
    assert r == [] ==> AllWhitespace(s) by {
      if r == [] {
        var i := |s| - |t|;
        forall k | 0 <= k < |s| ensures IsWhitespace(s[k]) {
          if k < i { assert s[k] == s[..i][k]; } else { assert s[k] == t[k - i]; }
        }
      }
    }
    r
  }

  /** The number of leading whitespace characters of `s`. */
  function LeadingWhitespace(s: string): (n: nat)
    ensures n <= |s| && AllWhitespace(s[..n])
    ensures n < |s| ==> !IsWhitespace(s[n])
  {
    |s| - |TrimStart(s)|
  }

  /** `trim` removes only the leading and the trailing whitespace: its result is the
      slice of `s` after the leading whitespace, followed in `s` only by whitespace,
      so inner text, inner whitespace included, is kept. */
  lemma TrimIsSlice(s: string)
    ensures var i := LeadingWhitespace(s);
            var r := Trim(s);
            && i + |r| <= |s| && r == s[i..i + |r|]
            && AllWhitespace(s[..i]) && AllWhitespace(s[i + |r|..])
  {
    var t := TrimStart(s);
    var r := TrimEnd(t);
    var i := |s| - |t|;
    assert Trim(s) == r;
    assert r == s[i..i + |r|] by {
      forall k | 0 <= k < |r| ensures r[k] == s[i..i + |r|][k] {
        assert r[k] == t[k] == s[i..][k];
      }
    }
    assert AllWhitespace(s[i + |r|..]) by {
      var u := s[i + |r|..];
      forall k | 0 <= k < |u| ensures IsWhitespace(u[k]) {
        assert u[k] == t[|r|..][k];
      }
    }
  }

  /** `Trim` is the identity on text without whitespace. */
  lemma TrimNoWhitespace(s: string)
    requires NoWhitespace(s)
    ensures Trim(s) == s
  {
    assert TrimStart(s) == s;
  }

  /** A leading whitespace character makes no difference to `Trim`. */
  lemma TrimLeadingWhitespace(c: char, s: string)
    requires IsWhitespace(c)
    ensures Trim([c] + s) == Trim(s)
  {
    assert ([c] + s)[1..] == s;
  }

  /** Every non-whitespace character of `s`, in order. */
  function StripWhitespace(s: string): (r: string)
    ensures NoWhitespace(r)
    ensures |r| <= |s|
  {
    if s == [] then []
    else StripWhitespace(s[..|s| - 1]) + (if IsWhitespace(s[|s| - 1]) then [] else [s[|s| - 1]])
  }

  lemma {:induction false} StripWhitespaceAppend(a: string, b: string)
    ensures StripWhitespace(a + b) == StripWhitespace(a) + StripWhitespace(b)
    decreases |b|
  {
    if b == [] {
      assert a + b == a;
    } else {
      var b' := b[..|b| - 1];
      assert (a + b)[..|a + b| - 1] == a + b';
      StripWhitespaceAppend(a, b');
    }
  }

  lemma {:induction false} StripTrimStart(s: string)
    ensures StripWhitespace(TrimStart(s)) == StripWhitespace(s)
    decreases |s|
  {
    if s != [] && IsWhitespace(s[0]) {
      StripTrimStart(s[1..]);
      StripLeadingWhitespace(s);
    }
  }

  /** A leading whitespace character is dropped by `StripWhitespace`. */
  lemma StripLeadingWhitespace(s: string)
    requires s != [] && IsWhitespace(s[0])
    ensures StripWhitespace(s) == StripWhitespace(s[1..])
  {
    assert s == [s[0]] + s[1..];
    StripWhitespaceAppend([s[0]], s[1..]);
    assert StripWhitespace([s[0]]) == [] by { assert [s[0]][..0] == []; }
  }

  lemma {:induction false} StripTrimEnd(s: string)
    ensures StripWhitespace(TrimEnd(s)) == StripWhitespace(s)
    decreases |s|
  {
    if s != [] && IsWhitespace(s[|s| - 1]) {
      StripTrimEnd(s[..|s| - 1]);
    }
  }

  /** Trimming never loses a non-whitespace character. */
  lemma StripTrim(s: string)
    ensures StripWhitespace(Trim(s)) == StripWhitespace(s)
  {
    StripTrimStart(s);
    StripTrimEnd(TrimStart(s));
  }

  /** `h.includes(n)`: `n` occurs in `h` as a contiguous substring. */
  function Contains(h: string, n: string): bool
  {
    n <= h || (h != [] && Contains(h[1..], n))
  }

  /** `n` occurs in `h` starting at index `i`. */
  predicate OccursAt(h: string, n: string, i: int) {
    0 <= i <= |h| - |n| && h[i..i + |n|] == n
  }

  /** `Contains` agrees with the positional definition of a substring. */
  lemma {:induction false} ContainsAt(h: string, n: string)
    ensures Contains(h, n) <==> exists i :: OccursAt(h, n, i)
  {
    if n <= h {
      assert OccursAt(h, n, 0);
    } else if h == [] {
    } else {
      ContainsAt(h[1..], n);
      if exists i :: OccursAt(h, n, i) {
        var i :| OccursAt(h, n, i);
        assert i != 0;
        assert OccursAt(h[1..], n, i - 1);
      }
      if Contains(h[1..], n) {
        var j :| OccursAt(h[1..], n, j);
        assert OccursAt(h, n, j + 1);
      }
    }
  }

  /** Every string contains the empty string and itself. */
  lemma ContainsEmptyAndSelf(s: string)
    ensures Contains(s, []) && Contains(s, s)
  {
  }

  /** The concatenation of a list of words, `words.join('')`. */
  function Concat(ws: seq<string>): (r: string)
    ensures ws == [] ==> r == []
  {
    if ws == [] then [] else Concat(ws[..|ws| - 1]) + ws[|ws| - 1]
  }

  lemma ConcatAppend(ws: seq<string>, w: string)
    ensures Concat(ws + [w]) == Concat(ws) + w
  {
    assert (ws + [w])[..|ws|] == ws;
  }
}
