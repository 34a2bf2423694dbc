/** The application/x-www-form-urlencoded format of the WHATWG URL Standard,
    which `URLSearchParams.prototype.toString` produces: the serializer of
    section 5.2, and the parser of section 5.1 as its inverse. */
module FormUrlEncoded {
  import opened Js
  import Utf8

  /** The code points the application/x-www-form-urlencoded percent-encode
      set leaves out: ASCII alphanumerics and `*`, `-`, `.`, `_`. Every other
      code point is percent-encoded (U+0020 SPACE becomes `+` instead). */
  predicate IsUnreserved(c: char) {
    || ('a' <= c <= 'z') || ('A' <= c <= 'Z') || ('0' <= c <= '9')
    || c == '*' || c == '-' || c == '.' || c == '_'
  }

  /** What the serializer may emit for a name or a value. */
  predicate IsFormSafe(s: string) {
    forall i :: 0 <= i < |s| ==> IsUnreserved(s[i]) || s[i] == '+' || s[i] == '%'
  }

  predicate IsHexDigit(c: char) {
    ('0' <= c <= '9') || ('A' <= c <= 'F') || ('a' <= c <= 'f')
  }

  function HexValue(c: char): (d: nat)
    requires IsHexDigit(c)
    ensures d < 16
  {
    if '0' <= c <= '9' then c as int - '0' as int
    else if 'A' <= c <= 'F' then c as int - 'A' as int + 10
    else c as int - 'a' as int + 10
  }

  /** Upper-case hexadecimal digit, as percent-encoding writes it; reading
      the digit back gives its value. */
  function HexDigit(d: nat): (c: char)
    requires d < 16
    ensures IsUnreserved(c) && c != '+' && c != '%'
    ensures IsHexDigit(c) && HexValue(c) == d
    ensures ('0' <= c <= '9') || ('A' <= c <= 'F')
  {
    if d < 10 then ('0' as int + d) as char else ('A' as int + d - 10) as char
  }

  /** `%XX` for each byte. */
  function PercentEncodeBytes(bs: seq<Utf8.Byte>): (r: string)
    ensures |r| == 3 * |bs|
    ensures forall i :: 0 <= i < |r| ==> IsUnreserved(r[i]) || r[i] == '%'
  {
    if bs == [] then []
    else ['%', HexDigit(bs[0] / 16), HexDigit(bs[0] % 16)] + PercentEncodeBytes(bs[1..])
  }

  /** One code point, percent-encoded after encoding with UTF-8, space as plus. */
  function EncodeChar(c: char): (r: string)
    ensures r != []
    ensures IsFormSafe(r)
  {
    if c == ' ' then "+"
    else if IsUnreserved(c) then [c]
    else PercentEncodeBytes(Utf8.EncodeChar(c))
  }

  /** A name or a value as the serializer writes it. The result holds only
      form-safe characters, so in particular no `&` and no `=`. */
  function Encode(s: string): (r: string)
    ensures IsFormSafe(r)
  {
    if s == [] then []
    else
      var head := EncodeChar(s[0]);
      var tail := Encode(s[1..]);
      assert forall i :: 0 <= i < |head + tail| ==>
        (head + tail)[i] == if i < |head| then head[i] else tail[i - |head|];
      head + tail
  }

  /** A string made of unreserved characters is written as it is. */
  lemma {:induction false} EncodeUnreserved(s: string)
    requires forall i :: 0 <= i < |s| ==> IsUnreserved(s[i])
    ensures Encode(s) == s
  {
    if s != [] {
      EncodeUnreserved(s[1..]);
      assert [s[0]] + s[1..] == s;
    }
  }

  function EncodeTuple(t: (string, string)): string {
    Encode(t.0) + "=" + Encode(t.1)
  }

  /** The serializer: each tuple becomes `name=value`, and tuples are joined
      by `&` in the order given. */
  function Serialize(tuples: seq<(string, string)>): (r: string)
    ensures r == [] <==> tuples == []
  {
    if tuples == [] then []
    else
      var output := Serialize(tuples[..|tuples| - 1]);
      (if output == [] then [] else output + "&") + EncodeTuple(tuples[|tuples| - 1])
  }

  /** Appending a tuple appends `&name=value` to a non-empty output. */
  lemma SerializeSnoc(init: seq<(string, string)>, last: (string, string))
    requires init != []
    ensures Serialize(init + [last]) == Serialize(init) + ("&" + EncodeTuple(last))
  {
    var tuples := init + [last];
    assert tuples[..|tuples| - 1] == init && tuples[|tuples| - 1] == last;
    assert Serialize(tuples) == (Serialize(init) + "&") + EncodeTuple(last);
  }

  // ---- The parser (section 5.1), the serializer's inverse ----

  /** Splits at every occurrence of `sep`; the pieces keep their order. */
  function Split(s: string, sep: char): (parts: seq<string>)
    ensures |parts| >= 1
  {
    if s == [] then [[]]
    else
      var rest := Split(s[1..], sep);
      if s[0] == sep then [[]] + rest else [[s[0]] + rest[0]] + rest[1..]
  }

  /** Splits at the first `sep`: (everything before it, everything after it),
      or (`s`, empty) when `s` has no `sep`. */
  function SplitAtFirst(s: string, sep: char): (string, string) {
    if s == [] then ([], [])
    else if s[0] == sep then ([], s[1..])
    else
      var (before, after) := SplitAtFirst(s[1..], sep);
      ([s[0]] + before, after)
  }

  /** Replaces `+` by a space and percent-decodes; a `%` that is not followed
      by two hexadecimal digits stands for itself. */
  function DecodeBytes(s: string): seq<Utf8.Byte> {
    if s == [] then []
    else if s[0] == '+' then [0x20] + DecodeBytes(s[1..])
    else if s[0] == '%' && |s| >= 3 && IsHexDigit(s[1]) && IsHexDigit(s[2]) then
      [HexValue(s[1]) * 16 + HexValue(s[2])] + DecodeBytes(s[3..])
    else Utf8.EncodeChar(s[0]) + DecodeBytes(s[1..])
  }

  function Decode(s: string): Option<string> {
    Utf8.Decode(DecodeBytes(s))
  }

  function ParseTuple(sequence: string): Option<(string, string)> {
    var (name, value) := SplitAtFirst(sequence, '=');
    match (Decode(name), Decode(value))
    case (Some(n), Some(v)) => Some((n, v))
    case _ => None
  }

  /** Empty sequences are skipped; `None` when a name or a value is not
      well-formed UTF-8 once percent-decoded. */
  function ParseSequences(sequences: seq<string>): Option<seq<(string, string)>> {
    if sequences == [] then Some([])
    else
      var rest := ParseSequences(sequences[1..]);
      if sequences[0] == [] then rest
      else match (ParseTuple(sequences[0]), rest)
        case (Some(t), Some(ts)) => Some([t] + ts)
        case _ => None
  }

  function Parse(input: string): Option<seq<(string, string)>> {
    ParseSequences(Split(input, '&'))
  }

  function Concat<T>(a: Option<seq<T>>, b: Option<seq<T>>): Option<seq<T>> {
    if a.Some? && b.Some? then Some(a.value + b.value) else None
  }

  // ---- Round trip ----

  lemma ConsAppend<T>(x: seq<T>, d: seq<T>)
    requires x != []
    ensures [x[0]] + (x[1..] + d) == x + d
  {
    assert [x[0]] + x[1..] == x;
  }

  lemma {:induction false} DecodePercentEncoded(bs: seq<Utf8.Byte>, rest: string)
    ensures DecodeBytes(PercentEncodeBytes(bs) + rest) == bs + DecodeBytes(rest)
  {
    if bs != [] {
      var b := bs[0];
      var tail := PercentEncodeBytes(bs[1..]) + rest;
      var s := PercentEncodeBytes(bs) + rest;
      assert s == ['%', HexDigit(b / 16), HexDigit(b % 16)] + tail;
      assert s[0] == '%' && s[1] == HexDigit(b / 16) && s[2] == HexDigit(b % 16) && s[3..] == tail;
      assert DecodeBytes(s) == [b] + DecodeBytes(tail);
      DecodePercentEncoded(bs[1..], rest);
      ConsAppend(bs, DecodeBytes(rest));
    } else {
      assert PercentEncodeBytes(bs) + rest == rest;
    }
  }

  lemma DecodeEncodedChar(c: char, rest: string)
    ensures DecodeBytes(EncodeChar(c) + rest) == Utf8.EncodeChar(c) + DecodeBytes(rest)
  {
    if c == ' ' {
      assert (EncodeChar(c) + rest)[1..] == rest;
    } else if IsUnreserved(c) {
      assert (EncodeChar(c) + rest)[1..] == rest;
    } else {
      DecodePercentEncoded(Utf8.EncodeChar(c), rest);
    }
  }

  /** Percent-decoding an encoded string gives back its UTF-8 bytes. */
  lemma {:induction false} DecodeBytesEncode(s: string)
    ensures DecodeBytes(Encode(s)) == Utf8.Encode(s)
  {
    if s != [] {
      DecodeEncodedChar(s[0], Encode(s[1..]));
      DecodeBytesEncode(s[1..]);
    }
  }

  /** Every name and value the serializer writes decodes back to itself. */
  lemma DecodeEncode(s: string)
    ensures Decode(Encode(s)) == Some(s)
  {
    DecodeBytesEncode(s);
    Utf8.DecodeEncode(s);
  }

  lemma {:induction false} SplitWithout(s: string, sep: char)
    requires forall i :: 0 <= i < |s| ==> s[i] != sep
    ensures Split(s, sep) == [s]
  {
    if s != [] {
      SplitWithout(s[1..], sep);
      assert [s[0]] + s[1..] == s;
    }
  }

  /** Splitting at a separator splits the two sides independently. */
  lemma {:induction false} SplitAround(a: string, sep: char, b: string)
    ensures Split(a + [sep] + b, sep) == Split(a, sep) + Split(b, sep)
  {
    var s := a + [sep] + b;
    if a == [] {
      assert s[1..] == b;
    } else {
      assert s[1..] == a[1..] + [sep] + b;
      SplitAround(a[1..], sep, b);
    }
  }

  lemma {:induction false} SplitAtFirstAround(a: string, sep: char, b: string)
    requires forall i :: 0 <= i < |a| ==> a[i] != sep
    ensures SplitAtFirst(a + [sep] + b, sep) == (a, b)
  {
    var s := a + [sep] + b;
    if a == [] {
      assert s[1..] == b;
    } else {
      assert s[1..] == a[1..] + [sep] + b;
      SplitAtFirstAround(a[1..], sep, b);
      assert [a[0]] + a[1..] == a;
    }
  }

  lemma {:induction false} ParseSequencesAppend(xs: seq<string>, ys: seq<string>)
    ensures ParseSequences(xs + ys) == Concat(ParseSequences(xs), ParseSequences(ys))
  {
    if xs == [] {
      assert xs + ys == ys;
      if ParseSequences(ys).Some? { assert [] + ParseSequences(ys).value == ParseSequences(ys).value; }
    } else {
      assert (xs + ys)[1..] == xs[1..] + ys;
      ParseSequencesAppend(xs[1..], ys);
      var t := ParseTuple(xs[0]);
      var a, b := ParseSequences(xs[1..]), ParseSequences(ys);
      if xs[0] != [] && t.Some? && a.Some? && b.Some? {
        assert [t.value] + (a.value + b.value) == ([t.value] + a.value) + b.value;
      }
    }
  }

  /** A form-safe string holds no separator the parser splits at. */
  lemma FormSafeHasNoSeparator(s: string, sep: char)
    requires IsFormSafe(s) && (sep == '&' || sep == '=')
    ensures forall i :: 0 <= i < |s| ==> s[i] != sep
  {
  }

  lemma ParseTupleEncoded(t: (string, string))
    ensures ParseTuple(EncodeTuple(t)) == Some(t)
  {
    var name, value := Encode(t.0), Encode(t.1);
    FormSafeHasNoSeparator(name, '=');
    SplitAtFirstAround(name, '=', value);
    assert SplitAtFirst(EncodeTuple(t), '=') == (name, value);
    DecodeEncode(t.0);
    DecodeEncode(t.1);
  }

  lemma JoinAvoids(a: string, m: char, b: string, c: char)
    requires forall i :: 0 <= i < |a| ==> a[i] != c
    requires forall i :: 0 <= i < |b| ==> b[i] != c
    requires m != c
    ensures forall i :: 0 <= i < |a + [m] + b| ==> (a + [m] + b)[i] != c
  {
    var e := a + [m] + b;
    forall i | 0 <= i < |e| ensures e[i] != c {
      if i < |a| {
        assert e[i] == a[i];
      } else if i > |a| {
        assert e[i] == b[i - |a| - 1];
      }
    }
  }

  lemma EncodedTupleShape(t: (string, string))
    ensures EncodeTuple(t) != []
    ensures forall i :: 0 <= i < |EncodeTuple(t)| ==> EncodeTuple(t)[i] != '&'
  {
    var name, value := Encode(t.0), Encode(t.1);
    FormSafeHasNoSeparator(name, '&');
    FormSafeHasNoSeparator(value, '&');
    JoinAvoids(name, '=', value, '&');
    assert EncodeTuple(t) == name + ['='] + value;
  }

  lemma ParseOneSequence(e: string)
    requires e != [] && forall i :: 0 <= i < |e| ==> e[i] != '&'
    ensures ParseTuple(e).Some? ==> Parse(e) == Some([ParseTuple(e).value])
  {
    SplitWithout(e, '&');
    assert [e][1..] == [];
    var rest := ParseSequences([e][1..]);
    assert rest == Some([]);
    if ParseTuple(e).Some? {
      var t := ParseTuple(e).value;
      assert ParseSequences([e]) == Some([t] + []);
      assert [t] + [] == [t];
      assert Parse(e) == ParseSequences([e]);
    }
  }

  lemma ParseEncodedTuple(t: (string, string))
    ensures Parse(EncodeTuple(t)) == Some([t])
  {
    EncodedTupleShape(t);
    ParseTupleEncoded(t);
    ParseOneSequence(EncodeTuple(t));
  }

  /** The parser recovers exactly the tuples the serializer was given, in
      the same order. */
  lemma {:induction false} ParseSerialize(tuples: seq<(string, string)>)
    ensures Parse(Serialize(tuples)) == Some(tuples)
  {
    if tuples != [] {
      var init, last := tuples[..|tuples| - 1], tuples[|tuples| - 1];
      assert init + [last] == tuples;
      var output := Serialize(init);
      ParseEncodedTuple(last);
      if output == [] {
        assert init == [];
        assert Serialize(tuples) == EncodeTuple(last);
      } else {
        ParseSerialize(init);
        SplitAround(output, '&', EncodeTuple(last));
        assert Serialize(tuples) == output + ['&'] + EncodeTuple(last);
        ParseSequencesAppend(Split(output, '&'), Split(EncodeTuple(last), '&'));
      }
    }
  }
}
