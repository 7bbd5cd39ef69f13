/** Python's argument-less `str.strip()`, as applied to every identifier. */
module Text {

  /** The characters Python's `str.isspace()` accepts, which are exactly the
      characters `str.strip()` removes when called without arguments. */
  predicate IsSpace(c: char) {
    || ('\t' <= c <= '\r')              // TAB, LF, VT, FF, CR
    || ('\U{1C}' <= c <= '\U{1F}')      // file/group/record/unit separators
    || c == ' '
    || c == '\U{85}'                    // NEXT LINE
    || c == '\U{A0}'                    // NO-BREAK SPACE
    || c == '\U{1680}'
    || ('\U{2000}' <= c <= '\U{200A}')
    || c == '\U{2028}' || c == '\U{2029}'
    || c == '\U{202F}' || c == '\U{205F}' || c == '\U{3000}'
  }

  predicate AllSpace(s: string) {
    forall i :: 0 <= i < |s| ==> IsSpace(s[i])
  }

  /** `s.lstrip()`: drops leading whitespace one character at a time. */
  function TrimStart(s: string): string {
    if |s| > 0 && IsSpace(s[0]) then TrimStart(s[1..]) else s
  }

  /** `s.rstrip()`: drops trailing whitespace one character at a time. */
  function TrimEnd(s: string): string {
    if |s| > 0 && IsSpace(s[|s| - 1]) then TrimEnd(s[..|s| - 1]) else s
  }

  /** `TrimStart` drops exactly the longest whitespace prefix: the result is a
      suffix of `s`, what was dropped is all whitespace, and the result does
      not start with whitespace. */
  lemma {:induction false} TrimStartIsMaximal(s: string)
    ensures |TrimStart(s)| <= |s| && TrimStart(s) == s[|s| - |TrimStart(s)|..]
    ensures AllSpace(s[..|s| - |TrimStart(s)|])
    ensures TrimStart(s) == [] || !IsSpace(TrimStart(s)[0])
  {
    if |s| > 0 && IsSpace(s[0]) {
      TrimStartIsMaximal(s[1..]);
      var k := |s| - |TrimStart(s)|;
      forall j | 0 <= j < k ensures IsSpace(s[..k][j]) {
        if j > 0 { assert s[..k][j] == s[1..][..k - 1][j - 1]; }
      }
    }
  }

  /** `TrimEnd` drops exactly the longest whitespace suffix: the result is a
      prefix of `s`, what was dropped is all whitespace, and the result does
      not end with whitespace. */
  lemma {:induction false} TrimEndIsMaximal(s: string)
    ensures |TrimEnd(s)| <= |s| && TrimEnd(s) == s[..|TrimEnd(s)|]
    ensures AllSpace(s[|TrimEnd(s)|..])
    ensures TrimEnd(s) == [] || !IsSpace(TrimEnd(s)[|TrimEnd(s)| - 1])
  {
    if |s| > 0 && IsSpace(s[|s| - 1]) {
      var init := s[..|s| - 1];
      TrimEndIsMaximal(init);
      var k := |TrimEnd(s)|;
      forall j | 0 <= j < |s| - k ensures IsSpace(s[k..][j]) {
        if k + j < |s| - 1 { assert s[k..][j] == init[k..][j]; }
      }
    }
  }

  /** `s.strip()`: whitespace removed from both ends. */
  function Strip(s: string): string {
    TrimEnd(TrimStart(s))
  }

  /** `Strip(s)` is the infix of `s`, starting at the returned offset, that
      remains once the maximal whitespace runs at both ends are removed: what
      lies around it is whitespace and it neither starts nor ends with
      whitespace. */
  lemma StripIsInfix(s: string) returns (i: nat)
    ensures i + |Strip(s)| <= |s| && Strip(s) == s[i..i + |Strip(s)|]
    ensures AllSpace(s[..i]) && AllSpace(s[i + |Strip(s)|..])
    ensures Strip(s) == [] || (!IsSpace(Strip(s)[0]) && !IsSpace(Strip(s)[|Strip(s)| - 1]))
  {
    var t := TrimStart(s);
    var r := TrimEnd(t);
    TrimStartIsMaximal(s);
    TrimEndIsMaximal(t);
    i := |s| - |t|;
    assert r == s[i..i + |r|];
    assert s[i + |r|..] == t[|r|..];
  }

  /** Stripping a string already stripped changes nothing. */
  lemma StripIdempotent(s: string)
    ensures Strip(Strip(s)) == Strip(s)
  {
    var r := Strip(s);
    var _ := StripIsInfix(s);
    assert r == [] || !IsSpace(r[0]);
    assert TrimStart(r) == r;
    TrimEndIsMaximal(r);
    assert r == [] || !IsSpace(r[|r| - 1]);
  }

  /** A string strips to the empty string exactly when it is all whitespace;
      in particular whitespace-only text strips to `""`, it is not rejected. */
  lemma StripEmptyIff(s: string)
    ensures Strip(s) == [] <==> AllSpace(s)
  {
    var r := Strip(s);
    var i := StripIsInfix(s);
    if r == [] {
      forall k | 0 <= k < |s| ensures IsSpace(s[k]) {
        if k < i { assert s[k] == s[..i][k]; }
        else { assert s[k] == s[i..][k - i]; }
      }
    } else {
      assert r[0] == s[i];
      assert !IsSpace(s[i]);
    }
  }

  /** Whitespace in front of `x` is all that `TrimStart` removes first. */
  lemma {:induction false} TrimStartSkipsSpace(pre: string, x: string)
    requires AllSpace(pre)
    ensures TrimStart(pre + x) == TrimStart(x)
  {
    if pre != [] {
      var s := pre + x;
      assert s[0] == pre[0];
      assert IsSpace(s[0]);
      assert TrimStart(s) == TrimStart(s[1..]);
      var rest := pre[1..];
      assert s[1..] == rest + x;
      assert AllSpace(rest) by {
        forall k | 0 <= k < |rest| ensures IsSpace(rest[k]) {
          assert rest[k] == pre[k + 1];
        }
      }
      TrimStartSkipsSpace(rest, x);
    } else {
      assert pre + x == x;
    }
  }

  /** Whitespace after `x` is all that `TrimEnd` removes first. */
  lemma {:induction false} TrimEndSkipsSpace(x: string, post: string)
    requires AllSpace(post)
    ensures TrimEnd(x + post) == TrimEnd(x)
  {
    if post != [] {
      var s := x + post;
      var n := |post| - 1;
      assert s[|s| - 1] == post[n];
      assert IsSpace(s[|s| - 1]);
      assert TrimEnd(s) == TrimEnd(s[..|s| - 1]);
      var rest := post[..n];
      assert s[..|s| - 1] == x + rest;
      assert AllSpace(rest) by {
        forall k | 0 <= k < |rest| ensures IsSpace(rest[k]) {
          assert rest[k] == post[k];
        }
      }
      TrimEndSkipsSpace(x, rest);
    } else {
      assert x + post == x;
    }
  }

  /** Text with whitespace only around its core strips to exactly that core. */
  lemma StripPadded(pre: string, core: string, post: string)
    requires AllSpace(pre) && AllSpace(post)
    requires core != [] && !IsSpace(core[0]) && !IsSpace(core[|core| - 1])
    ensures Strip(pre + core + post) == core
  {
    assert pre + core + post == pre + (core + post);
    TrimStartSkipsSpace(pre, core + post);
    assert TrimStart(core + post) == core + post;
    TrimEndSkipsSpace(core, post);
  }
}
