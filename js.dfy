/** The pieces of JavaScript string semantics the on-ramp code relies on:
    possibly-undefined values, truthiness, the `||` default idiom,
    `String.prototype.trim` and the UTF-16 `length` of a string. */
module Js {

  /** A value that may be `undefined` (an optional property or an unset
      environment variable). */
  datatype Option<T> = None | Some(value: T)

  /** A value thrown by `throw`: either an `Error` object, which carries a
      message, or anything else. */
  datatype Thrown = ErrorObject(message: string) | OtherValue

  /** The message a `catch` block reports for a caught value:
      `err instanceof Error ? err.message : fallback`. */
  function CaughtMessage(thrown: Thrown, fallback: string): string
  {
    match thrown
    case ErrorObject(message) => message
    case OtherValue => fallback
  }

  /** A possibly-undefined string used as a condition: `undefined` and the
      empty string are falsy, every other string is truthy. */
  predicate Truthy(s: Option<string>) {
    s.Some? && s.value != ""
  }

  /** `a || fallback`: the value of `a` when it is truthy, else the fallback. */
  function OrElse(a: Option<string>, fallback: string): string
  {
    if Truthy(a) then a.value else fallback
  }

  /** A default that is itself truthy makes `a || fallback` truthy whatever
      `a` is; an empty default is passed on only when `a` is falsy too.
      Defaulting twice with the same fallback is defaulting once. */
  lemma OrElseTruthy(a: Option<string>, fallback: string)
    ensures Truthy(Some(OrElse(a, fallback))) <==> Truthy(a) || fallback != ""
    ensures OrElse(Some(OrElse(a, fallback)), fallback) == OrElse(a, fallback)
  {
  }

  /** `s.endsWith(suffix)`. */
  predicate EndsWith(s: string, suffix: string) {
    |suffix| <= |s| && s[|s| - |suffix|..] == suffix
  }

  /** The code points `trim` removes: the ECMAScript WhiteSpace production
      (TAB, VT, FF, ZWNBSP and every Unicode space separator) and the
      LineTerminator production (LF, CR, LS, PS). */
  predicate IsWhitespace(c: char) {
    || ('\t' <= c <= '\r')
    || c == ' ' || c == '\U{00A0}' || c == '\U{1680}'
    || ('\U{2000}' <= c <= '\U{200A}')
    || c == '\U{2028}' || c == '\U{2029}' || c == '\U{202F}' || c == '\U{205F}'
    || c == '\U{3000}' || c == '\U{FEFF}'
  }

  predicate AllWhitespace(s: string) {
    forall i :: 0 <= i < |s| ==> IsWhitespace(s[i])
  }

  /** Drops the leading whitespace (see `TrimStartSpec`). */
  function TrimStart(s: string): (r: string)
    ensures |r| <= |s|
  {
    if |s| > 0 && IsWhitespace(s[0]) then TrimStart(s[1..]) else s
  }

  /** Drops the trailing whitespace (see `TrimEndSpec`). */
  function TrimEnd(s: string): (r: string)
    ensures |r| <= |s|
  {
    if |s| > 0 && IsWhitespace(s[|s| - 1]) then TrimEnd(s[..|s| - 1]) else s
  }

  /** `s.trim()` (see `TrimSpec`). */
  function Trim(s: string): (r: string)
    ensures |r| <= |s|
  {
    TrimEnd(TrimStart(s))
  }

  /** What `TrimStart` leaves is a suffix of `s`, what it drops is
      whitespace, and what it leaves does not start with whitespace. */
  lemma {:induction false} TrimStartSpec(s: string)
    ensures var r := TrimStart(s);
      && r == s[|s| - |r|..]
      && AllWhitespace(s[..|s| - |r|])
      && (r == [] || !IsWhitespace(r[0]))
  {
    if |s| > 0 && IsWhitespace(s[0]) {
      var r := TrimStart(s[1..]);
      TrimStartSpec(s[1..]);
      assert s[1..][|s| - 1 - |r|..] == s[|s| - |r|..];
      forall i | 0 <= i < |s| - |r| ensures IsWhitespace(s[i]) {
        if i > 0 { assert s[i] == s[1..][..|s| - 1 - |r|][i - 1]; }
      }
    }
  }

  /** What `TrimEnd` leaves is a prefix of `s`, what it drops is
      whitespace, and what it leaves does not end with whitespace. */
  lemma {:induction false} TrimEndSpec(s: string)
    ensures var r := TrimEnd(s);
      && r == s[..|r|]
      && AllWhitespace(s[|r|..])
      && (r == [] || !IsWhitespace(r[|r| - 1]))
  {
    if |s| > 0 && IsWhitespace(s[|s| - 1]) {
      var t := s[..|s| - 1];
      var r := TrimEnd(t);
      TrimEndSpec(t);
      assert t[..|r|] == s[..|r|];
      forall i | |r| <= i < |s| ensures IsWhitespace(s[i]) {
        if i < |s| - 1 { assert s[i] == t[|r|..][i - |r|]; }
      }
    }
  }

  /** `trim` leaves nothing exactly when the string is all whitespace; what
      it leaves neither starts nor ends with whitespace, and a string that
      does neither is left as it is. */
  lemma TrimSpec(s: string)
    ensures Trim(s) == [] <==> AllWhitespace(s)
    ensures Trim(s) != [] ==> !IsWhitespace(Trim(s)[0]) && !IsWhitespace(Trim(s)[|Trim(s)| - 1])
    ensures (s == [] || (!IsWhitespace(s[0]) && !IsWhitespace(s[|s| - 1]))) ==> Trim(s) == s
  {
    var t := TrimStart(s);
    var r := TrimEnd(t);
    TrimStartSpec(s);
    TrimEndSpec(t);
    if r == [] {
      assert t[|r|..] == t;
      AllWhitespaceAppend(s[..|s| - |t|], t);
      assert s[..|s| - |t|] + t == s;
    } else {
      assert r[0] == t[0];
      assert !AllWhitespace(s) by {
        assert s[|s| - |t|] == t[0];
      }
    }
  }

  /** `trim` in one place: it returns the slice of `s` between a run of
      leading whitespace and a run of trailing whitespace. */
  lemma TrimSlice(s: string)
    ensures var a := |s| - |TrimStart(s)|;
      var b := a + |Trim(s)|;
      && a <= b <= |s|
      && Trim(s) == s[a..b]
      && AllWhitespace(s[..a])
      && AllWhitespace(s[b..])
  {
    var t := TrimStart(s);
    var r := TrimEnd(t);
    var a := |s| - |t|;
    TrimStartSpec(s);
    TrimEndSpec(t);
    assert t == s[a..];
    assert r == s[a..a + |r|];
    assert s[a + |r|..] == t[|r|..];
  }

  /** Leading whitespace does not change what `TrimStart` leaves. */
  lemma {:induction false} TrimStartIgnoresLeading(w: string, s: string)
    requires AllWhitespace(w)
    ensures TrimStart(w + s) == TrimStart(s)
  {
    if w != [] {
      assert (w + s)[1..] == w[1..] + s;
      TrimStartIgnoresLeading(w[1..], s);
    } else {
      assert w + s == s;
    }
  }

  /** Trailing whitespace does not change what `TrimEnd` leaves. */
  lemma {:induction false} TrimEndIgnoresTrailing(s: string, w: string)
    requires AllWhitespace(w)
    ensures TrimEnd(s + w) == TrimEnd(s)
  {
    if w != [] {
      assert (s + w)[..|s + w| - 1] == s + w[..|w| - 1];
      TrimEndIgnoresTrailing(s, w[..|w| - 1]);
    } else {
      assert s + w == s;
    }
  }

  /** Trailing characters after a non-whitespace character are untouched by
      `TrimStart`. */
  lemma {:induction false} TrimStartKeepsTail(s: string, w: string)
    requires !AllWhitespace(s)
    ensures TrimStart(s + w) == TrimStart(s) + w
  {
    if IsWhitespace(s[0]) {
      assert (s + w)[1..] == s[1..] + w;
      assert !AllWhitespace(s[1..]) by {
        var i :| 0 <= i < |s| && !IsWhitespace(s[i]);
        assert s[1..][i - 1] == s[i];
      }
      TrimStartKeepsTail(s[1..], w);
    }
  }

  lemma {:induction false} TrimStartAllWhitespace(s: string)
    requires AllWhitespace(s)
    ensures TrimStart(s) == []
  {
    if s != [] {
      assert AllWhitespace(s[1..]) by {
        forall i | 0 <= i < |s[1..]| ensures IsWhitespace(s[1..][i]) {
          assert s[1..][i] == s[i + 1];
        }
      }
      TrimStartAllWhitespace(s[1..]);
    }
  }

  lemma AllWhitespaceAppend(s: string, w: string)
    requires AllWhitespace(s) && AllWhitespace(w)
    ensures AllWhitespace(s + w)
  {
    forall i | 0 <= i < |s + w| ensures IsWhitespace((s + w)[i]) {
      if i < |s| { assert (s + w)[i] == s[i]; } else { assert (s + w)[i] == w[i - |s|]; }
    }
  }

  /** Trailing whitespace does not change what `Trim` leaves. */
  lemma TrimIgnoresTrailing(s: string, w: string)
    requires AllWhitespace(w)
    ensures TrimEnd(TrimStart(s + w)) == TrimEnd(TrimStart(s))
  {
    if AllWhitespace(s) {
      AllWhitespaceAppend(s, w);
      TrimStartAllWhitespace(s + w);
      TrimStartAllWhitespace(s);
    } else {
      TrimStartKeepsTail(s, w);
      TrimEndIgnoresTrailing(TrimStart(s), w);
    }
  }

  /** Whitespace around a string does not change its trimmed form. */
  lemma TrimIgnoresSurroundingWhitespace(w1: string, s: string, w2: string)
    requires AllWhitespace(w1) && AllWhitespace(w2)
    ensures Trim(w1 + s + w2) == Trim(s)
  {
    calc {
      Trim(w1 + s + w2);
      TrimEnd(TrimStart(w1 + s + w2));
      { assert w1 + s + w2 == w1 + (s + w2);
        TrimStartIgnoresLeading(w1, s + w2); }
      TrimEnd(TrimStart(s + w2));
      { TrimIgnoresTrailing(s, w2); }
      TrimEnd(TrimStart(s));
      Trim(s);
    }
  }

  /** Trimming twice is trimming once. */
  lemma TrimIdempotent(s: string)
    ensures Trim(Trim(s)) == Trim(s)
  {
    TrimSpec(s);
    TrimSpec(Trim(s));
  }

  /** `s.length`: the number of UTF-16 code units, two for every code point
      outside the Basic Multilingual Plane. */
  function Utf16Length(s: string): (n: nat)
    ensures |s| <= n <= 2 * |s|
    ensures n == |s| <==> forall i :: 0 <= i < |s| ==> s[i] as int < 0x1_0000
  {
    if s == [] then 0
    else (if s[0] as int < 0x1_0000 then 1 else 2) + Utf16Length(s[1..])
  }
}
