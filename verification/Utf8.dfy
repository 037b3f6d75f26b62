/** The check that a string may go into JSON unescaped (util/string.c), against section 4 of RFC 3629. */
module Utf8 {
  import opened Bytes

  /** A code point of the basic multilingual plane. */
  type Bmp = c: int | 0 <= c < 0x1_0000

  /** The UTF-8 encoding of a code point. */
  function Utf8(c: Bmp): (s: ByteString)
    ensures 1 <= |s| <= 3
  {
    if c < 0x80 then [c]
    else if c < 0x800 then [0xc0 + c / 0x40, 0x80 + c % 0x40]
    else [0xe0 + c / 0x1000, 0x80 + c / 0x40 % 0x40, 0x80 + c % 0x40]
  }

  /** No control character, quote, backslash or surrogate. */
  predicate Allowed(c: Bmp) {
    0x20 <= c && c != 0x7f && c != 0x22 && c != 0x5c && !(0xd800 <= c <= 0xdfff)
  }

  function EncodeAll(cs: seq<Bmp>): ByteString {
    if |cs| == 0 then [] else Utf8(cs[0]) + EncodeAll(cs[1..])
  }

  /** The string is the encoding of allowed code points only. */
  ghost predicate Spells(cs: seq<Bmp>, s: ByteString) {
    EncodeAll(cs) == s && forall i :: 0 <= i < |cs| ==> Allowed(cs[i])
  }

  /** Some list of allowed code points spells the string. */
  ghost predicate JsonSafe(s: ByteString) {
    exists cs :: Spells(cs, s)
  }

  predicate Tail(b: Byte) {
    0x80 <= b <= 0xbf
  }

  /** The length of the acceptable character at the front; zero if there is none. */
  function Front(s: ByteString): (k: nat)
    ensures k <= |s|
  {
    if |s| >= 1 && 0x20 <= s[0] <= 0x7e && s[0] != 0x22 && s[0] != 0x5c then 1
    else if |s| >= 2 && 0xc2 <= s[0] <= 0xdf && Tail(s[1]) then 2
    else if |s| >= 3 && Tail(s[2]) &&
            ((s[0] == 0xe0 && 0xa0 <= s[1] <= 0xbf) ||
             ((0xe1 <= s[0] <= 0xec || s[0] == 0xee || s[0] == 0xef) && Tail(s[1])) ||
             (s[0] == 0xed && 0x80 <= s[1] <= 0x9f)) then 3
    else 0
  }

  /** The code point of the character at the front. */
  function FrontChar(s: ByteString): Bmp
    requires Front(s) > 0
  {
    match Front(s)
    case 1 => s[0]
    case 2 => (s[0] - 0xc0) as int * 0x40 + (s[1] - 0x80)
    case _ => (s[0] - 0xe0) as int * 0x1000 + (s[1] - 0x80) as int * 0x40 + (s[2] - 0x80)
  }

  lemma FrontSound(s: ByteString)
    requires Front(s) > 0
    ensures Allowed(FrontChar(s)) && Utf8(FrontChar(s)) == s[..Front(s)]
  {
  }

  lemma FrontComplete(c: Bmp, rest: ByteString)
    requires Allowed(c)
    ensures Front(Utf8(c) + rest) == |Utf8(c)| && FrontChar(Utf8(c) + rest) == c
  {
  }

  /** Only acceptable characters, from the front to the end. */
  predicate Accepted(s: ByteString)
    decreases |s|
  {
    |s| == 0 || (Front(s) > 0 && Accepted(s[Front(s)..]))
  }

  lemma {:induction false} AcceptedSpells(s: ByteString) returns (cs: seq<Bmp>)
    requires Accepted(s)
    ensures Spells(cs, s)
    decreases |s|
  {
    if |s| == 0 {
      cs := [];
    } else {
      var k := Front(s);
      FrontSound(s);
      var tail := AcceptedSpells(s[k..]);
      cs := [FrontChar(s)] + tail;
      assert cs[1..] == tail && s == s[..k] + s[k..];
    }
  }

  lemma {:induction false} SpelledAccepted(cs: seq<Bmp>, s: ByteString)
    requires Spells(cs, s)
    ensures Accepted(s)
    decreases |cs|
  {
    if |cs| > 0 {
      var tail := EncodeAll(cs[1..]);
      FrontComplete(cs[0], tail);
      assert s[|Utf8(cs[0])|..] == tail;
      SpelledAccepted(cs[1..], tail);
    }
  }

  /** A string spells at most one list of code points. */
  lemma {:induction false} DecodingUnique(a: seq<Bmp>, b: seq<Bmp>, s: ByteString)
    requires Spells(a, s) && Spells(b, s)
    ensures a == b
    decreases |a|
  {
    hide Front, FrontChar;
    if |a| > 0 && |b| > 0 {
      FrontComplete(a[0], EncodeAll(a[1..]));
      FrontComplete(b[0], EncodeAll(b[1..]));
      var k := |Utf8(a[0])|;
      assert s[k..] == EncodeAll(a[1..]) && s[k..] == EncodeAll(b[1..]);
      DecodingUnique(a[1..], b[1..], s[k..]);
      assert a == [a[0]] + a[1..] && b == [b[0]] + b[1..];
    }
  }

  /**
   * `validate_json_string`. The memory handed over ends with the terminating zero, so every
   * byte that is looked at lies at or before it.
   */
  method ValidateJsonString(str: ByteString) returns (ok: bool)
    requires |str| > 0 && str[|str| - 1] == 0 && forall i :: 0 <= i < |str| - 1 ==> str[i] != 0
    ensures ok <==> JsonSafe(str[..|str| - 1])
  {
    hide Accepted, JsonSafe;
    ghost var s := str[..|str| - 1];
    AcceptedIff(s);
    var b := 0;
    assert s[0..] == s;
    while str[b] != 0
      invariant 0 <= b <= |s|
      invariant Accepted(s) <==> Accepted(s[b..])
      decreases |str| - b
    {
      AcceptedStep(s, b);
      if 0x20 <= str[b] <= 0x7e && str[b] != 0x22 && str[b] != 0x5c {
        b := b + 1;
        continue;
      }
      if 0xc2 <= str[b] <= 0xdf && 0x80 <= str[b + 1] <= 0xbf {
        b := b + 2;
        continue;
      }
      if (str[b] == 0xe0 && 0xa0 <= str[b + 1] <= 0xbf && 0x80 <= str[b + 2] <= 0xbf) ||
         ((0xe1 <= str[b] <= 0xec || str[b] == 0xee || str[b] == 0xef) &&
          0x80 <= str[b + 1] <= 0xbf && 0x80 <= str[b + 2] <= 0xbf) ||
         (str[b] == 0xed && 0x80 <= str[b + 1] <= 0x9f && 0x80 <= str[b + 2] <= 0xbf) {
        b := b + 3;
        continue;
      }
      return false;
    }
    NothingLeft(s);
    return true;
  }

  lemma AcceptedStep(s: ByteString, b: nat)
    requires b < |s|
    ensures var k := Front(s[b..]); Accepted(s[b..]) <==> k > 0 && Accepted(s[b + k..])
  {
    var k := Front(s[b..]);
    assert s[b..][k..] == s[b + k..];
  }

  lemma NothingLeft(s: ByteString)
    ensures Accepted(s[|s|..])
  {
  }

  lemma AcceptedIff(s: ByteString)
    ensures Accepted(s) <==> JsonSafe(s)
  {
    if Accepted(s) {
      var cs := AcceptedSpells(s);
    }
    if cs :| Spells(cs, s) {
      SpelledAccepted(cs, s);
    }
  }
}
