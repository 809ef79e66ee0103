/**
 The escaping of label values into Graphite path nodes
 (client/graphite/template/escape.go).

 Each scanning loop of the source is a method, proved equal to a function of its
 input; the lemmas are about those functions.
 */
module Escape {
  import opened Bytes
  import opened Wrappers

  // ------------------------------------------------------- character classes

  const SYMBOLS := "(){},=.'\"\\"

  predicate IsSymbol(b: byte) {
    b == 40 || b == 41 || b == LBRACE || b == RBRACE || b == COMMA ||
    b == EQUALS || b == DOT || b == 39 || b == QUOTE || b == BACKSLASH
  }

  lemma SymbolsAreTheListedOnes(b: byte)
    ensures IsSymbol(b) <==> b as char in SYMBOLS
  {
    assert SYMBOLS == ['(', ')', '{', '}', ',', '=', '.', '\'', '\"', '\\'];
  }

  const DIGITS_AND_LOWER := "0123456789abcdefghijklmnopqrstuvwxyz"

  const UPPER := "ABCDEFGHIJKLMNOPQRSTUVWXYZ"

  const PUNCTUATION := "!\"#$%&\\'()*+,-./:;<=>?@[\\]^_`{|}~"

  const PRINTABLES := DIGITS_AND_LOWER + UPPER + PUNCTUATION

  predicate IsPrintable(b: byte) {
    33 <= b <= 126
  }

  /** The listed printables are exactly the bytes 0x21 to 0x7E. */
  lemma PrintablesAreTheListedOnes(b: byte)
    ensures IsPrintable(b) <==> b as char in PRINTABLES
  {
    DigitsAndLower(b);
    Upper(b);
    Punctuation(b);
    assert PRINTABLES == DIGITS_AND_LOWER + UPPER + PUNCTUATION;
  }

  lemma DigitsAndLower(b: byte)
    ensures b as char in DIGITS_AND_LOWER <==> 48 <= b <= 57 || 97 <= b <= 122
  {
  }

  lemma Upper(b: byte)
    ensures b as char in UPPER <==> 65 <= b <= 90
  {
  }

  lemma Punctuation(b: byte)
    ensures b as char in PUNCTUATION <==>
              33 <= b <= 47 || 58 <= b <= 64 || 91 <= b <= 96 || 123 <= b <= 126
  {
  }

  /** Percent-encoded before anything else is looked at. */
  predicate IsReserved(b: byte) {
    b == DOT || b == PERCENT || b == SLASH || b == EQUALS
  }

  /** A byte that is copied as it is. */
  predicate IsPlain(b: byte) {
    IsPrintable(b) && !IsReserved(b) && !IsSymbol(b)
  }

  predicate AllPlain(s: bytes) {
    forall i | 0 <= i < |s| :: IsPlain(s[i])
  }

  /** `%X` writes one digit for these, so they are not decoded. */
  predicate NoLowByte(s: bytes) {
    forall i | 0 <= i < |s| :: 16 <= s[i]
  }

  // ---------------------------------------------------------------- escaping

  function UpperHex(d: int): byte
    requires 0 <= d < 16
  {
    if d < 10 then 48 + d else 55 + d
  }

  /** Go's "%%%X" of one byte: not zero-padded. */
  function PercentCode(b: byte): bytes {
    if b < 16 then [PERCENT, UpperHex(b)]
    else [PERCENT, UpperHex(b / 16), UpperHex(b % 16)]
  }

  function EscapedByte(b: byte): bytes {
    if IsReserved(b) then PercentCode(b)
    else if IsSymbol(b) then [BACKSLASH, b]
    else if IsPrintable(b) then [b]
    else PercentCode(b)
  }

  const HEX_DIGITS := "0123456789ABCDEF"

  /** "%" and the upper-case hexadecimal digits of the byte, without a leading zero. */
  predicate IsPercentCode(code: bytes, b: byte) {
    if b < 16 then |code| == 2 && code[0] as char == '%' && code[1] as char == HEX_DIGITS[b]
    else
      && |code| == 3 && code[0] as char == '%'
      && code[1] as char == HEX_DIGITS[b / 16] && code[2] as char == HEX_DIGITS[b % 16]
  }

  lemma UpperHexIsListed(d: int)
    requires 0 <= d < 16
    ensures UpperHex(d) as char == HEX_DIGITS[d]
  {
  }

  /** The code words, in the characters that the source lists. */
  lemma CodeWords(b: byte)
    ensures
      var c, code := b as char, EscapedByte(b);
      if c in ".%/=" || (c !in SYMBOLS && c !in PRINTABLES) then IsPercentCode(code, b)
      else if c in SYMBOLS then |code| == 2 && code[0] as char == '\\' && code[1] == b
      else code == [b]
  {
    SymbolsAreTheListedOnes(b);
    PrintablesAreTheListedOnes(b);
    assert b as char in ".%/=" <==> IsReserved(b);
    PercentCodeIs(b);
  }

  lemma PercentCodeIs(b: byte)
    ensures IsPercentCode(PercentCode(b), b)
  {
    UpperHexIsListed(b % 16);
    UpperHexIsListed(b / 16);
  }

  function Escaped(s: bytes): bytes {
    if s == [] then [] else EscapedByte(s[0]) + Escaped(s[1..])
  }

  method Escape(tv: bytes) returns (result: bytes)
    ensures result == Escaped(tv)
  {
    result := [];
    for i := 0 to |tv|
      invariant result + Escaped(tv[i..]) == Escaped(tv)
    {
      var b := tv[i];
      assert tv[i..][1..] == tv[i + 1..];
      ConcatAssociates(result, EscapedByte(b), Escaped(tv[i + 1..]));
      if b == DOT || b == PERCENT || b == SLASH || b == EQUALS {
        result := result + PercentCode(b);
      } else if IsSymbol(b) {
        result := result + [BACKSLASH, b];
      } else if IsPrintable(b) {
        result := result + [b];
      } else {
        result := result + PercentCode(b);
      }
    }
  }

  // --------------------------------------------------------- tagged escaping

  predicate IsTagReserved(b: byte) {
    b == SEMICOLON || b == TILDE || b == SPACE || b == EQUALS
  }

  function EscapedTaggedByte(b: byte): bytes {
    if IsTagReserved(b) then [UNDERSCORE]
    else if IsPrintable(b) then [b]
    else PercentCode(b)
  }

  lemma TaggedCodeWords(b: byte)
    ensures
      var c, code := b as char, EscapedTaggedByte(b);
      if c in ";~ =" then |code| == 1 && code[0] as char == '_'
      else if c in PRINTABLES then code == [b]
      else IsPercentCode(code, b)
  {
    PrintablesAreTheListedOnes(b);
    assert b as char in ";~ =" <==> IsTagReserved(b);
    PercentCodeIs(b);
  }

  function EscapedTagged(s: bytes): bytes {
    if s == [] then [] else EscapedTaggedByte(s[0]) + EscapedTagged(s[1..])
  }

  method EscapeTagged(tv: bytes) returns (result: bytes)
    ensures result == EscapedTagged(tv)
  {
    result := [];
    for i := 0 to |tv|
      invariant result + EscapedTagged(tv[i..]) == EscapedTagged(tv)
    {
      var b := tv[i];
      assert tv[i..][1..] == tv[i + 1..];
      ConcatAssociates(result, EscapedTaggedByte(b), EscapedTagged(tv[i + 1..]));
      if b == SEMICOLON || b == TILDE || b == SPACE || b == EQUALS {
        result := result + [UNDERSCORE];
      } else if IsPrintable(b) {
        result := result + [b];
      } else {
        result := result + PercentCode(b);
      }
    }
  }

  // -------------------------------------------------------------- unescaping

  predicate IsHex(b: byte) {
    48 <= b <= 57 || 65 <= b <= 70 || 97 <= b <= 102
  }

  function HexValue(b: byte): (d: int)
    requires IsHex(b)
    ensures 0 <= d < 16
  {
    if b <= 57 then b - 48 else if b <= 70 then b - 55 else b - 87
  }

  /**
   Go's url.PathUnescape: every '%' must start "%HH" (section 2.1 of RFC 3986);
   one malformed escape fails the whole string; '+' is left alone.
   */
  function PathUnescape(s: bytes): Option<bytes> {
    if s == [] then Some([])
    else if s[0] == PERCENT then
      if |s| < 3 || !IsHex(s[1]) || !IsHex(s[2]) then None
      else
        match PathUnescape(s[3..])
        case None => None
        case Some(rest) => Some([(16 * HexValue(s[1]) + HexValue(s[2])) as byte] + rest)
    else
      match PathUnescape(s[1..])
      case None => None
      case Some(rest) => Some([s[0]] + rest)
  }

  /** Is the first byte of s a backslash that the scan of `Unescape` drops? */
  predicate DropsFirst(s: bytes) {
    |s| > 1 && s[0] == BACKSLASH && IsSymbol(s[1])
  }

  /** s without each backslash that is directly followed by a symbol. */
  function Stripped(s: bytes): bytes {
    if s == [] then []
    else if DropsFirst(s) then Stripped(s[1..])
    else [s[0]] + Stripped(s[1..])
  }

  /** The decoding error is ignored by the source, which goes on with "". */
  function Unescaped(s: bytes): bytes {
    match PathUnescape(s)
    case None => []
    case Some(decoded) => Stripped(decoded)
  }

  method Unescape(tv: bytes) returns (result: bytes)
    ensures result == Unescaped(tv)
  {
    var decoded := PathUnescape(tv);
    var new_ := if decoded.Some? then decoded.value else [];
    result := [];
    var left := new_;
    while left != []
      invariant result + Stripped(left) == Stripped(new_)
      decreases |left|
    {
      var b := left[0];
      ConcatAssociates(result, [b], Stripped(left[1..]));
      if b == BACKSLASH && |left| > 1 {
        var n := left[1];
        if !IsSymbol(n) {
          result := result + [b];
        }
      } else {
        result := result + [b];
      }
      left := left[1..];
    }
  }

  // ------------------------------------------- what is decoded, and what dropped

  /** The digits of a code, of either case, and their values. */
  lemma HexDigitsAreRead(b: byte)
    ensures IsHex(b) <==> b as char in HEX_DIGITS || b as char in "0123456789abcdef"
    ensures IsHex(b) ==> b as char in [HEX_DIGITS[HexValue(b)], "0123456789abcdef"[HexValue(b)]]
  {
    if IsHex(b) {
      HexDigitOfValue(b);
    }
  }

  lemma HexDigitOfValue(b: byte)
    requires IsHex(b)
    ensures b as char == if b <= 70 then HEX_DIGITS[HexValue(b)] else "0123456789abcdef"[HexValue(b)]
  {
  }

  /** A '%' at i that two digits do not follow. */
  predicate MalformedAt(s: bytes, i: nat) {
    i < |s| && s[i] == PERCENT && !(i + 2 < |s| && IsHex(s[i + 1]) && IsHex(s[i + 2]))
  }

  /** A string is not decoded, and then unescaped to "", exactly if some '%' is malformed. */
  lemma {:induction false} DecodeFailsExactly(s: bytes)
    ensures PathUnescape(s).None? <==> exists i: nat :: MalformedAt(s, i)
    ensures PathUnescape(s).None? ==> Unescaped(s) == []
    decreases |s|
  {
    if s != [] {
      if s[0] != PERCENT {
        DecodeFailsExactly(s[1..]);
        MalformedLater(s, 1);
      } else if MalformedAt(s, 0) {
      } else {
        DecodeFailsExactly(s[3..]);
        MalformedLater(s, 3);
      }
    }
  }

  lemma MalformedLater(s: bytes, n: nat)
    requires n <= |s| && forall i: nat | i < n :: !MalformedAt(s, i)
    ensures (exists i: nat :: MalformedAt(s, i)) <==> exists i: nat :: MalformedAt(s[n..], i)
  {
    if i: nat :| MalformedAt(s, i) {
      assert MalformedAt(s[n..], i - n);
    }
    if i: nat :| MalformedAt(s[n..], i) {
      assert MalformedAt(s, n + i);
    }
  }

  /** Decoding goes from left to right; the code of a byte is decoded to it. */
  lemma {:induction false} DecodeConcat(a: bytes, b: bytes)
    requires PathUnescape(a).Some?
    ensures PathUnescape(a + b) ==
            match PathUnescape(b) case None => None case Some(d) => Some(PathUnescape(a).value + d)
    decreases |a|
  {
    if a == [] {
      assert [] + b == b;
      if PathUnescape(b).Some? {
        assert [] + PathUnescape(b).value == PathUnescape(b).value;
      }
    } else {
      var n, s := if a[0] == PERCENT then 3 else 1, a + b;
      DecodeConcat(a[n..], b);
      assert s[n..] == a[n..] + b && s[..n] == a[..n];
      assert s[0] == a[0] && (n == 3 ==> s[1] == a[1] && s[2] == a[2]);
      if PathUnescape(b).Some? {
        ConcatAssociates([PathUnescape(a).value[0]], PathUnescape(a[n..]).value, PathUnescape(b).value);
      }
    }
  }

  lemma DecodeDigits(h: byte, l: byte)
    requires IsHex(h) && IsHex(l)
    ensures PathUnescape([PERCENT, h, l]) == Some([(16 * HexValue(h) + HexValue(l)) as byte])
  {
    var b := (16 * HexValue(h) + HexValue(l)) as byte;
    assert [PERCENT, h, l][3..] == [] && [b] + [] == [b];
  }

  /** A backslash directly before one of the symbols. */
  predicate DroppedAt(s: bytes, i: nat) {
    i + 1 < |s| && s[i] as char == '\\' && s[i + 1] as char in SYMBOLS
  }

  /** `at` lists, in order, the positions of the bytes that are left. */
  predicate LeftAt(at: seq<nat>, r: bytes, s: bytes) {
    && |at| == |r|
    && (forall k | 0 <= k < |at| :: at[k] < |s| && r[k] == s[at[k]])
    && (forall j, k | 0 <= j < k < |at| :: at[j] < at[k])
    && (forall i: nat | i < |s| :: i in at <==> !DroppedAt(s, i))
  }

  /** Exactly the backslashes directly before a symbol are dropped. */
  lemma {:induction false} DroppedExactly(s: bytes)
    ensures exists at :: LeftAt(at, Stripped(s), s)
    decreases |s|
  {
    if s == [] {
      var none: seq<nat> := [];
      assert LeftAt(none, Stripped(s), s);
    } else {
      DroppedExactly(s[1..]);
      var at :| LeftAt(at, Stripped(s[1..]), s[1..]);
      DroppedFirst(s);
      LeftCons(at, Stripped(s[1..]), s);
      if DropsFirst(s) {
        assert LeftAt(Shifted(at), Stripped(s), s);
      } else {
        assert LeftAt([0] + Shifted(at), Stripped(s), s);
      }
    }
  }

  lemma DroppedFirst(s: bytes)
    ensures DropsFirst(s) <==> DroppedAt(s, 0)
  {
    if |s| > 1 {
      SymbolsAreTheListedOnes(s[1]);
    }
  }

  lemma LeftCons(at: seq<nat>, r: bytes, s: bytes)
    requires s != [] && LeftAt(at, r, s[1..])
    ensures DroppedAt(s, 0) ==> LeftAt(Shifted(at), r, s)
    ensures !DroppedAt(s, 0) ==> LeftAt([0] + Shifted(at), [s[0]] + r, s)
  {
    var t, later := s[1..], Shifted(at);
    forall k | 0 <= k < |later| ensures later[k] < |s| && r[k] == s[later[k]] {
      assert r[k] == t[at[k]];
    }
    forall i: nat | 0 < i < |s| ensures i in later <==> !DroppedAt(s, i) {
      DroppedLater(s, i);
    }
    if !DroppedAt(s, 0) {
      LeftFirst(later, r, s);
    }
  }

  lemma DroppedLater(s: bytes, i: nat)
    requires 0 < i < |s|
    ensures DroppedAt(s, i) <==> DroppedAt(s[1..], i - 1)
  {
  }

  lemma LeftFirst(later: seq<nat>, r: bytes, s: bytes)
    requires s != [] && !DroppedAt(s, 0) && |later| == |r|
    requires forall k | 0 <= k < |later| :: 0 < later[k] < |s| && r[k] == s[later[k]]
    requires forall j, k | 0 <= j < k < |later| :: later[j] < later[k]
    requires forall i: nat | 0 < i < |s| :: i in later <==> !DroppedAt(s, i)
    ensures LeftAt([0] + later, [s[0]] + r, s)
  {
  }

  // ------------------------------------------------- what the output contains

  lemma CodeAlphabet(b: byte)
    ensures forall c :: c in EscapedByte(b) ==> IsPrintable(c) && c != DOT && c != SLASH && c != EQUALS
  {
  }

  lemma {:induction false} EscapedAlphabet(s: bytes)
    ensures forall b :: b in Escaped(s) ==> IsPrintable(b) && b != DOT && b != SLASH && b != EQUALS
    decreases |s|
  {
    if s != [] {
      EscapedAlphabet(s[1..]);
      CodeAlphabet(s[0]);
    }
  }

  lemma {:induction false} EscapedTaggedAlphabet(s: bytes)
    ensures forall b :: b in EscapedTagged(s) ==> IsPrintable(b) && !IsTagReserved(b)
    decreases |s|
  {
    if s != [] {
      EscapedTaggedAlphabet(s[1..]);
    }
  }

  lemma {:induction false} EscapedLength(s: bytes)
    ensures |Escaped(s)| >= |s|
    ensures |Escaped(s)| == |s| ==> AllPlain(s)
    decreases |s|
  {
    if s != [] {
      EscapedLength(s[1..]);
      assert s == [s[0]] + s[1..];
    }
  }

  /** Escaping leaves exactly the strings of plain bytes alone. */
  lemma {:induction false} EscapedFixed(s: bytes)
    ensures Escaped(s) == s <==> AllPlain(s)
    decreases |s|
  {
    EscapedLength(s);
    if AllPlain(s) && s != [] {
      EscapedFixed(s[1..]);
      assert s == [s[0]] + s[1..];
    }
  }

  predicate AllTagPlain(s: bytes) {
    forall b | b in s :: IsPrintable(b) && !IsTagReserved(b)
  }

  lemma {:induction false} EscapedTaggedLength(s: bytes)
    ensures |EscapedTagged(s)| >= |s|
    decreases |s|
  {
    if s != [] {
      EscapedTaggedLength(s[1..]);
    }
  }

  /** Tag escaping leaves exactly the printable strings without reserved bytes alone. */
  lemma {:induction false} EscapedTaggedFixed(s: bytes)
    ensures EscapedTagged(s) == s <==> AllTagPlain(s)
    decreases |s|
  {
    if s != [] {
      var b, code, rest := s[0], EscapedTaggedByte(s[0]), EscapedTagged(s[1..]);
      EscapedTaggedFixed(s[1..]);
      EscapedTaggedLength(s[1..]);
      assert s == [b] + s[1..];
      if code + rest == s {
        assert |code| == 1 && (code + rest)[0] == code[0];
        assert rest == (code + rest)[1..] == s[1..];
      }
    }
  }

  /** Escaping a tag value a second time changes nothing, for any bytes at all. */
  lemma EscapedTaggedIdempotent(s: bytes)
    ensures EscapedTagged(EscapedTagged(s)) == EscapedTagged(s)
  {
    EscapedTaggedAlphabet(s);
    EscapedTaggedFixed(EscapedTagged(s));
  }

  /** The four bytes that tags reserve replaced by an underscore. */
  function Underscored(s: bytes): bytes {
    seq(|s|, i requires 0 <= i < |s| => if s[i] as char in ";~ =" then UNDERSCORE else s[i])
  }

  lemma UnderscoredCons(s: bytes)
    requires s != []
    ensures Underscored(s) ==
            [if s[0] as char in ";~ =" then UNDERSCORE else s[0]] + Underscored(s[1..])
  {
  }

  /** Decoding one code word of the tag format. */
  lemma TaggedByteDecodes(b: byte)
    requires 16 <= b && b != PERCENT
    ensures PathUnescape(EscapedTaggedByte(b)) == Some([if b as char in ";~ =" then UNDERSCORE else b])
  {
    assert b as char in ";~ =" <==> IsTagReserved(b);
    if !IsTagReserved(b) && !IsPrintable(b) {
      DecodeCode(b, []);
      assert PercentCode(b) + [] == PercentCode(b) && [b] + [] == [b];
    } else {
      var c := EscapedTaggedByte(b)[0];
      DecodeCons(c, []);
      assert [c] + [] == [c] == EscapedTaggedByte(b);
    }
  }

  predicate NoPercent(s: bytes) {
    forall i | 0 <= i < |s| :: s[i] != PERCENT
  }

  /** Bytes below 0x10, and '%' itself, swallow what follows them or spoil the whole string. */
  lemma {:induction false} TaggedShortens(s: bytes)
    requires PathUnescape(EscapedTagged(s)).Some?
    ensures |PathUnescape(EscapedTagged(s)).value| <= |s|
    ensures !(NoLowByte(s) && NoPercent(s)) ==> |PathUnescape(EscapedTagged(s)).value| < |s|
    decreases |s|
  {
    if s != [] {
      var e := EscapedTagged(s);
      if s[0] >= 16 && s[0] != PERCENT {
        TaggedByteDecodes(s[0]);
        DecodeConcat(EscapedTaggedByte(s[0]), EscapedTagged(s[1..]));
        TaggedShortens(s[1..]);
      } else {
        var n := if s[0] == PERCENT then 3 else 2;
        TaggedSwallows(s, n);
        TaggedShortens(s[n..]);
      }
    }
  }

  /** Hexadecimal digits are copied: they stand for themselves only. */
  lemma TaggedDigit(s: bytes)
    requires EscapedTagged(s) != [] && IsHex(EscapedTagged(s)[0])
    ensures s != [] && EscapedTagged(s) == [s[0]] + EscapedTagged(s[1..])
  {
    assert EscapedTagged(s)[0] == EscapedTaggedByte(s[0])[0];
  }

  /** After a '%' the digits must be copies of the next bytes. */
  lemma TaggedSwallows(s: bytes, n: nat)
    requires s != [] && n == if s[0] == PERCENT then 3 else 2
    requires s[0] == PERCENT || s[0] < 16
    requires PathUnescape(EscapedTagged(s)).Some?
    ensures n <= |s| && EscapedTagged(s)[3..] == EscapedTagged(s[n..])
  {
    if n == 3 {
      TwoDigits(s[1..]);
      assert EscapedTagged(s) == [PERCENT] + EscapedTagged(s[1..]);
      assert s[1..][2..] == s[3..];
    } else {
      OneDigit(s);
    }
  }

  lemma OneDigit(s: bytes)
    requires s != [] && s[0] < 16 && PathUnescape(EscapedTagged(s)).Some?
    ensures 2 <= |s| && EscapedTagged(s)[3..] == EscapedTagged(s[2..])
  {
    var e, code, rest := EscapedTagged(s), PercentCode(s[0]), EscapedTagged(s[1..]);
    assert e == code + rest && |code| == 2 && e[0] == code[0] == PERCENT;
    assert |e| >= 3 && IsHex(e[2]);
    assert rest != [] && rest[0] == e[2];
    TaggedDigit(s[1..]);
    assert s[1..][1..] == s[2..];
    assert e[3..] == rest[1..];
  }

  lemma TwoDigits(t: bytes)
    requires PathUnescape([PERCENT] + EscapedTagged(t)).Some?
    ensures 2 <= |t| && ([PERCENT] + EscapedTagged(t))[3..] == EscapedTagged(t[2..])
  {
    var e := EscapedTagged(t);
    var s := [PERCENT] + e;
    assert |e| >= 2 && s[1] == e[0] && s[2] == e[1] && IsHex(e[0]) && IsHex(e[1]);
    TaggedDigit(t);
    var rest := EscapedTagged(t[1..]);
    assert e[1] == rest[0];
    TaggedDigit(t[1..]);
    assert t[1..][1..] == t[2..];
    assert e == [t[0]] + ([t[1]] + EscapedTagged(t[2..]));
  }

  /**
   Percent-decoding undoes the tag escaping but for the underscores exactly when no
   byte is below 0x10 and none is '%', which is copied as it is.
   */
  lemma {:induction false} TaggedDecodes(s: bytes)
    ensures PathUnescape(EscapedTagged(s)) == Some(Underscored(s)) <==> NoLowByte(s) && NoPercent(s)
    decreases |s|
  {
    if NoLowByte(s) && NoPercent(s) {
      if s != [] {
        TaggedByteDecodes(s[0]);
        DecodeConcat(EscapedTaggedByte(s[0]), EscapedTagged(s[1..]));
        TaggedDecodes(s[1..]);
        UnderscoredCons(s);
      } else {
        assert Underscored(s) == [];
      }
    } else if PathUnescape(EscapedTagged(s)).Some? {
      TaggedShortens(s);
    }
  }

  // -------------------------------------------------------------- round trip

  function ArmouredByte(b: byte): bytes {
    if IsSymbol(b) && !IsReserved(b) then [BACKSLASH, b] else [b]
  }

  /** What percent-decoding leaves of an escaped string: symbols still armoured. */
  function Armoured(s: bytes): bytes {
    if s == [] then [] else ArmouredByte(s[0]) + Armoured(s[1..])
  }

  lemma DecodeByte(b: byte, rest: bytes)
    requires 16 <= b
    ensures PathUnescape(EscapedByte(b) + rest).Some? <==> PathUnescape(rest).Some?
    ensures PathUnescape(rest).Some? ==>
              PathUnescape(EscapedByte(b) + rest) == Some(ArmouredByte(b) + PathUnescape(rest).value)
  {
    if IsReserved(b) || (!IsSymbol(b) && !IsPrintable(b)) {
      DecodeCode(b, rest);
    } else if IsSymbol(b) {
      DecodeCons(b, rest);
      DecodeCons(BACKSLASH, [b] + rest);
      ConcatAssociates([BACKSLASH], [b], rest);
      if PathUnescape(rest).Some? {
        ConcatAssociates([BACKSLASH], [b], PathUnescape(rest).value);
      }
      assert [BACKSLASH] + [b] == [BACKSLASH, b];
    } else {
      DecodeCons(b, rest);
    }
  }

  lemma {:induction false} DecodeEscaped(s: bytes)
    requires NoLowByte(s)
    ensures PathUnescape(Escaped(s)) == Some(Armoured(s))
    decreases |s|
  {
    if s != [] {
      DecodeEscaped(s[1..]);
      DecodeByte(s[0], Escaped(s[1..]));
    }
  }

  lemma {:induction false} StrippedArmoured(s: bytes)
    ensures Stripped(Armoured(s)) == Stripped(s)
    decreases |s|
  {
    if s != [] {
      var b, rest := s[0], Armoured(s[1..]);
      StrippedArmoured(s[1..]);
      assert s[1..] != [] <==> rest != [];
      assert s[1..] != [] ==> (IsSymbol(s[1]) <==> IsSymbol(rest[0]));
      assert ([b] + rest)[1..] == rest;
      if IsSymbol(b) && !IsReserved(b) {
        assert Armoured(s)[1..] == [b] + rest;
        assert DropsFirst(Armoured(s));
      }
    }
  }

  /**
   The image of the round trip: without bytes below 0x10, escaping and
   unescaping removes each backslash directly followed by a symbol, and nothing
   else.
   */
  lemma UnescapedEscaped(s: bytes)
    requires NoLowByte(s)
    ensures Unescaped(Escaped(s)) == Stripped(s)
  {
    DecodeEscaped(s);
    StrippedArmoured(s);
  }

  predicate NoArmour(s: bytes) {
    forall i | 0 <= i < |s| - 1 :: !(s[i] == BACKSLASH && IsSymbol(s[i + 1]))
  }

  lemma {:induction false} StrippedFixed(s: bytes)
    ensures |Stripped(s)| <= |s|
    ensures Stripped(s) == s <==> NoArmour(s)
    decreases |s|
  {
    if s != [] {
      StrippedFixed(s[1..]);
      assert s == [s[0]] + s[1..];
      if DropsFirst(s) {
        assert !NoArmour(s);
      } else {
        assert Stripped(s) == [s[0]] + Stripped(s[1..]);
        assert Stripped(s)[1..] == Stripped(s[1..]);
        assert NoArmour(s) <==> NoArmour(s[1..]) by {
          if NoArmour(s[1..]) {
            forall i | 0 <= i < |s| - 1 ensures !(s[i] == BACKSLASH && IsSymbol(s[i + 1])) {
              if i > 0 {
                assert s[i] == s[1..][i - 1] && s[i + 1] == s[1..][i];
              }
            }
          } else {
            var i :| 0 <= i < |s[1..]| - 1 && s[1..][i] == BACKSLASH && IsSymbol(s[1..][i + 1]);
            assert s[i + 1] == BACKSLASH && IsSymbol(s[i + 2]);
          }
        }
      }
    }
  }

  lemma StrippedCons(b: byte, s: bytes)
    ensures |Stripped([b] + s)| <= 1 + |Stripped(s)|
  {
    assert ([b] + s)[1..] == s;
  }

  lemma DecodeCons(b: byte, t: bytes)
    requires b != PERCENT
    ensures PathUnescape([b] + t).Some? <==> PathUnescape(t).Some?
    ensures PathUnescape(t).Some? ==>
              PathUnescape([b] + t) == Some([b] + PathUnescape(t).value)
  {
    assert ([b] + t)[1..] == t;
  }

  lemma DecodeCode(b: byte, t: bytes)
    requires 16 <= b
    ensures PathUnescape(PercentCode(b) + t).Some? <==> PathUnescape(t).Some?
    ensures PathUnescape(t).Some? ==>
              PathUnescape(PercentCode(b) + t) == Some([b] + PathUnescape(t).value)
  {
    assert (PercentCode(b) + t)[3..] == t;
    assert 16 * (b / 16) + b % 16 == b;
  }

  lemma StrippedArmour(b: byte, d: bytes)
    ensures |Stripped(ArmouredByte(b) + d)| <= 1 + |Stripped(d)|
  {
    StrippedCons(b, d);
    if IsSymbol(b) && !IsReserved(b) {
      ConcatAssociates([BACKSLASH], [b], d);
      assert [BACKSLASH] + [b] == [BACKSLASH, b];
      assert DropsFirst([BACKSLASH] + ([b] + d));
      assert ([BACKSLASH] + ([b] + d))[1..] == [b] + d;
    }
  }

  /** A byte below 0x10 swallows its successor, or spoils the whole string. */
  lemma {:induction false} LowByteShortens(s: bytes)
    ensures |Unescaped(Escaped(s))| <= |s|
    ensures !NoLowByte(s) ==> |Unescaped(Escaped(s))| < |s|
    decreases |s|, 1
  {
    if s != [] {
      var b, t := s[0], s[1..];
      assert s == [b] + t;
      if b >= 16 {
        LowByteShortens(t);
        DecodeByte(b, Escaped(t));
        if PathUnescape(Escaped(t)).Some? {
          StrippedArmour(b, PathUnescape(Escaped(t)).value);
        }
      } else if PathUnescape(Escaped(s)).Some? {
        LowByteAtFront(s);
      }
    }
  }

  lemma {:induction false} LowByteAtFront(s: bytes)
    requires s != [] && s[0] < 16
    requires PathUnescape(Escaped(s)).Some?
    ensures |Unescaped(Escaped(s))| < |s|
    decreases |s|, 0
  {
    var e, t := Escaped(s), s[1..];
    assert e == [PERCENT, UpperHex(s[0])] + Escaped(t);
    assert t != [];
    assert Escaped(t)[0] == EscapedByte(t[0])[0];
    assert EscapedByte(t[0]) == [t[0]];
    assert e[3..] == Escaped(t[1..]);
    StrippedCons(PathUnescape(e).value[0], PathUnescape(Escaped(t[1..])).value);
    LowByteShortens(t[1..]);
  }

  /**
   Escape and Unescape undo each other on exactly the byte strings with no byte
   below 0x10 and no backslash directly followed by a symbol.
   */
  lemma EscapeRoundTrip(s: bytes)
    ensures Unescaped(Escaped(s)) == s <==> NoLowByte(s) && NoArmour(s)
  {
    LowByteShortens(s);
    if NoLowByte(s) {
      UnescapedEscaped(s);
      StrippedFixed(s);
    }
  }

  // ------------------------------------------------------------- prefix code

  /** A byte that starts no code word: a symbol other than the backslash. */
  predicate Stops(x: bytes) {
    x == [] || (IsSymbol(x[0]) && x[0] != BACKSLASH)
  }

  predicate IsUpperHex(d: byte) {
    48 <= d <= 57 || 65 <= d <= 70
  }

  predicate IsCoded(b: byte) {
    IsReserved(b) || (!IsSymbol(b) && !IsPrintable(b))
  }

  /** The byte whose two-digit code starts like the one-digit code of b and goes on with d. */
  function Joined(b: byte, d: byte): int
    requires IsUpperHex(d)
  {
    16 * b + if d <= 57 then d - 48 else d - 55
  }

  predicate FoldsWith(b: byte, d: byte) {
    1 <= b < 16 && IsUpperHex(d) && IsCoded(Joined(b, d))
  }

  /** s with every low byte and following digit that look like one coded byte replaced by it. */
  function Folded(s: bytes): bytes
    decreases |s|
  {
    if s == [] then []
    else if |s| > 1 && FoldsWith(s[0], s[1]) then [Joined(s[0], s[1])] + Folded(s[2..])
    else [s[0]] + Folded(s[1..])
  }

  predicate IsFolded(s: bytes) {
    forall i | 0 <= i < |s| - 1 :: !FoldsWith(s[i], s[i + 1])
  }

  /** Folding does not change the escaped form. */
  lemma {:induction false} EscapedFolded(s: bytes)
    ensures Escaped(Folded(s)) == Escaped(s)
    decreases |s|
  {
    if s != [] {
      if |s| > 1 && FoldsWith(s[0], s[1]) {
        EscapedFolded(s[2..]);
        EscapedCons(Joined(s[0], s[1]), Folded(s[2..]));
        JoinedCode(s[0], s[1]);
        EscapedPair(s);
      } else {
        EscapedFolded(s[1..]);
        EscapedCons(s[0], Folded(s[1..]));
      }
    }
  }

  lemma EscapedCons(b: byte, s: bytes)
    ensures Escaped([b] + s) == EscapedByte(b) + Escaped(s)
  {
    assert ([b] + s)[1..] == s;
  }

  lemma JoinedCode(b: byte, d: byte)
    requires FoldsWith(b, d)
    ensures EscapedByte(Joined(b, d)) == EscapedByte(b) + EscapedByte(d)
  {
  }

  lemma EscapedPair(s: bytes)
    requires |s| > 1
    ensures Escaped(s) == EscapedByte(s[0]) + EscapedByte(s[1]) + Escaped(s[2..])
  {
    assert s[1..][1..] == s[2..];
    ConcatAssociates(EscapedByte(s[0]), EscapedByte(s[1]), Escaped(s[2..]));
  }

  /** Folding is complete: nothing is left to fold. */
  lemma {:induction false} FoldedIsFolded(s: bytes)
    ensures IsFolded(Folded(s))
    ensures s == [] <==> Folded(s) == []
    ensures s != [] && IsUpperHex(Folded(s)[0]) ==> Folded(s)[0] == s[0]
    decreases |s|
  {
    if s != [] {
      var pair := |s| > 1 && FoldsWith(s[0], s[1]);
      var rest := Folded(if pair then s[2..] else s[1..]);
      FoldedIsFolded(if pair then s[2..] else s[1..]);
      assert Folded(s)[1..] == rest;
      assert rest != [] ==> !FoldsWith(Folded(s)[0], rest[0]);
      FoldedCons(Folded(s)[0], rest);
      assert Folded(s) == [Folded(s)[0]] + rest;
    }
  }

  lemma FoldedCons(b: byte, s: bytes)
    requires IsFolded(s) && (s != [] ==> !FoldsWith(b, s[0]))
    ensures IsFolded([b] + s)
  {
  }

  /** Without low bytes there is nothing to fold. */
  lemma {:induction false} FoldedFixed(s: bytes)
    requires NoLowByte(s)
    ensures Folded(s) == s
    decreases |s|
  {
    if s != [] {
      FoldedFixed(s[1..]);
      assert s == [s[0]] + s[1..];
    }
  }

  /** Up to folding the code words form a prefix code. */
  lemma {:induction false} FoldedDecodable(s: bytes, x: bytes, t: bytes, y: bytes)
    requires IsFolded(s) && IsFolded(t) && Stops(x) && Stops(y)
    requires Escaped(s) + x == Escaped(t) + y
    ensures s == t && x == y
    decreases |s|
  {
    if s != [] && t != [] {
      EscapedFront(s, x);
      EscapedFront(t, y);
      FrontDigit(s, x);
      FrontDigit(t, y);
      SameCode(s[0], Escaped(s[1..]) + x, t[0], Escaped(t[1..]) + y);
      FoldedDecodable(s[1..], x, t[1..], y);
      assert s == [s[0]] + s[1..] && t == [t[0]] + t[1..];
    } else {
      if s != [] { EscapedFront(s, x); }
      if t != [] { EscapedFront(t, y); }
      assert [] + x == x && [] + y == y;
    }
  }

  /** A rest that cannot complete the code of a low byte b to that of another byte. */
  predicate Separate(b: byte, rest: bytes) {
    rest == [] || !FoldsWith(b, rest[0])
  }

  lemma FrontDigit(s: bytes, x: bytes)
    requires s != [] && IsFolded(s) && Stops(x)
    ensures IsFolded(s[1..]) && Separate(s[0], Escaped(s[1..]) + x)
  {
    var t := s[1..];
    forall i | 0 <= i < |t| - 1 ensures !FoldsWith(t[i], t[i + 1]) {
      assert !FoldsWith(s[i + 1], s[i + 2]);
    }
    if t == [] {
      assert Escaped(t) + x == x;
    } else {
      EscapedFront(t, x);
      CodeStart(t[0]);
      assert (EscapedByte(t[0]) + (Escaped(t[1..]) + x))[0] == EscapedByte(t[0])[0];
      assert !FoldsWith(s[0], s[1]);
    }
  }

  /**
   What of a string an escaped text determines, followed by a stopping byte or by
   nothing: the string up to folding, and nothing more. This holds for all bytes,
   also where `Unescape` does not restore them.
   */
  lemma UniquelyDecodable(s: bytes, x: bytes, t: bytes, y: bytes)
    requires Stops(x) && Stops(y)
    ensures Escaped(s) + x == Escaped(t) + y <==> Folded(s) == Folded(t) && x == y
  {
    EscapedFolded(s);
    EscapedFolded(t);
    FoldedIsFolded(s);
    FoldedIsFolded(t);
    if Escaped(s) + x == Escaped(t) + y {
      FoldedDecodable(Folded(s), x, Folded(t), y);
    }
  }

  /** Two strings have one escaped form exactly when they fold to the same string. */
  lemma EscapeCollides(s: bytes, t: bytes)
    ensures Escaped(s) == Escaped(t) <==> Folded(s) == Folded(t)
  {
    UniquelyDecodable(s, [], t, []);
    assert Escaped(s) + [] == Escaped(s) && Escaped(t) + [] == Escaped(t);
  }

  /** Escape is injective on the strings from 0x10 up. */
  lemma EscapeInjective(s: bytes, t: bytes)
    requires NoLowByte(s) && NoLowByte(t)
    ensures Escaped(s) == Escaped(t) <==> s == t
  {
    EscapeCollides(s, t);
    FoldedFixed(s);
    FoldedFixed(t);
  }

  /** "\x02" and a zero are written as a space is: "%20". */
  lemma SpaceCollides()
    ensures Escaped([2, 48]) == Escaped([SPACE])
  {
    assert [2, 48][2..] == [] && [SPACE][1..] == [];
    assert FoldsWith(2, 48) && Joined(2, 48) == SPACE;
    assert !FoldsWith(SPACE, 48);
    assert Folded([2, 48]) == [SPACE] + Folded([]);
    assert Folded([SPACE]) == [SPACE] + Folded([]);
    EscapeCollides([2, 48], [SPACE]);
  }

  lemma EscapedFront(s: bytes, x: bytes)
    requires s != []
    ensures Escaped(s) + x == EscapedByte(s[0]) + (Escaped(s[1..]) + x)
    ensures !Stops(Escaped(s) + x)
  {
    ConcatAssociates(EscapedByte(s[0]), Escaped(s[1..]), x);
    CodeStart(s[0]);
    CodeGoesOn(EscapedByte(s[0]), Escaped(s[1..]) + x);
  }

  lemma CodeGoesOn(code: bytes, rest: bytes)
    requires !Stops(code)
    ensures !Stops(code + rest)
  {
    assert (code + rest)[0] == code[0];
  }

  lemma CodeStart(b: byte)
    ensures EscapedByte(b) != []
    ensures !Stops(EscapedByte(b))
  {
  }

  lemma SameCode(a: byte, ra: bytes, b: byte, rb: bytes)
    requires Separate(a, ra) && Separate(b, rb)
    requires EscapedByte(a) + ra == EscapedByte(b) + rb
    ensures a == b && ra == rb
  {
    var w, ea, eb := EscapedByte(a) + ra, EscapedByte(a), EscapedByte(b);
    assert w[0] == ea[0] == eb[0];
    if |ea| < |eb| {
      LowCode(a, ra, b, rb);
    } else if |eb| < |ea| {
      LowCode(b, rb, a, ra);
    }
    SameLengthCode(a, ra, b, rb);
  }

  /** The code of a low byte is not the start of another. */
  lemma LowCode(a: byte, ra: bytes, b: byte, rb: bytes)
    requires Separate(a, ra) && |EscapedByte(a)| < |EscapedByte(b)|
    ensures EscapedByte(a) + ra != EscapedByte(b) + rb
  {
    var w, v, ea, eb := EscapedByte(a) + ra, EscapedByte(b) + rb, EscapedByte(a), EscapedByte(b);
    if w == v {
      assert w[0] == ea[0] && v[0] == eb[0];
      if |ea| == 2 {
        assert w[1] == ea[1] && v[1] == eb[1] && w[2] == ra[0] && v[2] == eb[2];
        assert b == 16 * (b / 16) + b % 16;
        assert FoldsWith(a, ra[0]);
      }
      assert false;
    }
  }

  lemma SameLengthCode(a: byte, ra: bytes, b: byte, rb: bytes)
    requires EscapedByte(a) + ra == EscapedByte(b) + rb && |EscapedByte(a)| == |EscapedByte(b)|
    ensures a == b && ra == rb
  {
    var w, ea, eb := EscapedByte(a) + ra, EscapedByte(a), EscapedByte(b);
    assert ea == w[..|ea|] == eb;
    assert ra == w[|ea|..] == rb;
    CodeNamesByte(a, b);
  }

  lemma CodeNamesByte(a: byte, b: byte)
    requires EscapedByte(a) == EscapedByte(b)
    ensures a == b
  {
    var ea, eb := EscapedByte(a), EscapedByte(b);
    assert ea[0] == eb[0];
    assert |ea| > 1 ==> ea[1] == eb[1];
    assert |ea| > 2 ==> ea[2] == eb[2];
  }
}
