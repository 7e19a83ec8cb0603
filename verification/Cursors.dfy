/**
 The page cursor (internal/handler/publishedservice.go): unpadded URL-safe base64 of the last item's
 first-publish time, a separator and its slug. The textual form of a time is a parameter; what is
 assumed of it is that parsing undoes formatting and that it never contains the separator.
 */
module Cursors {
  import opened Collections

  newtype Byte = x: int | 0 <= x < 256

  type Sextet = x: int | 0 <= x < 64

  datatype Key = Key(at: int, slug: seq<Byte>)

  const SEPARATOR: Byte := 124

  // ----- The alphabet -----

  function Symbol(x: Sextet): char {
    if x < 26 then 'A' + x as char
    else if x < 52 then 'a' + (x - 26) as char
    else if x < 62 then '0' + (x - 52) as char
    else if x == 62 then '-' else '_'
  }

  function SymbolValue(c: char): Option<Sextet> {
    if 'A' <= c <= 'Z' then Some((c - 'A') as int)
    else if 'a' <= c <= 'z' then Some((c - 'a') as int + 26)
    else if '0' <= c <= '9' then Some((c - '0') as int + 52)
    else if c == '-' then Some(62)
    else if c == '_' then Some(63)
    else None
  }

  lemma SymbolRoundTrip(x: Sextet)
    ensures SymbolValue(Symbol(x)) == Some(x)
  {
  }

  // ----- Groups -----

  function FirstSix(a: Byte): Sextet {
    a as int / 4
  }

  function SecondSix(a: Byte, b: Byte): Sextet {
    a as int % 4 * 16 + b as int / 16
  }

  function ThirdSix(b: Byte, c: Byte): Sextet {
    b as int % 16 * 4 + c as int / 64
  }

  function FourthSix(c: Byte): Sextet {
    c as int % 64
  }

  function Encode(bytes: seq<Byte>): string {
    if |bytes| == 0 then []
    else if |bytes| == 1 then [Symbol(FirstSix(bytes[0])), Symbol(SecondSix(bytes[0], 0))]
    else if |bytes| == 2 then
      [Symbol(FirstSix(bytes[0])), Symbol(SecondSix(bytes[0], bytes[1])), Symbol(ThirdSix(bytes[1], 0))]
    else
      [Symbol(FirstSix(bytes[0])), Symbol(SecondSix(bytes[0], bytes[1])), Symbol(ThirdSix(bytes[1], bytes[2])),
       Symbol(FourthSix(bytes[2]))] + Encode(bytes[3..])
  }

  /** Decoding ignores line breaks, refuses other foreign characters and a lone trailing symbol. */
  function Decode(s: string): Option<seq<Byte>> {
    DecodeSymbols(WithoutBreaks(s))
  }

  function WithoutBreaks(s: string): string {
    if s == [] then []
    else if s[0] == '\r' || s[0] == '\n' then WithoutBreaks(s[1..])
    else [s[0]] + WithoutBreaks(s[1..])
  }

  function DecodeSymbols(s: string): Option<seq<Byte>> {
    if |s| == 0 then Some([])
    else if |s| == 1 then None
    else
      var w, x := SymbolValue(s[0]), SymbolValue(s[1]);
      if w.None? || x.None? then None
      else
        var a := (w.value * 4 + x.value / 16) as Byte;
        if |s| == 2 then Some([a])
        else
          var y := SymbolValue(s[2]);
          if y.None? then None
          else
            var b := (x.value % 16 * 16 + y.value / 4) as Byte;
            if |s| == 3 then Some([a, b])
            else
              var z, rest := SymbolValue(s[3]), DecodeSymbols(s[4..]);
              if z.None? || rest.None? then None
              else Some([a, b, (y.value % 4 * 64 + z.value) as Byte] + rest.value)
  }

  predicate IsSymbol(c: char) {
    SymbolValue(c).Some?
  }

  lemma {:induction false} EncodesSymbols(bytes: seq<Byte>)
    ensures forall i :: 0 <= i < |Encode(bytes)| ==> IsSymbol(Encode(bytes)[i])
  {
    if |bytes| >= 3 {
      EncodesSymbols(bytes[3..]);
    }
  }

  lemma {:induction false} NoBreaksToDrop(s: string)
    requires forall i :: 0 <= i < |s| ==> IsSymbol(s[i])
    ensures WithoutBreaks(s) == s
  {
    if s != [] {
      assert IsSymbol(s[0]);
      NoBreaksToDrop(s[1..]);
      assert s == [s[0]] + s[1..];
    }
  }

  /** Four groups of six bits are those of three bytes. */
  ghost predicate Join(w: Sextet, x: Sextet, y: Sextet, z: Sextet, a: Byte, b: Byte, c: Byte) {
    w * 4 + x / 16 == a as int && x % 16 * 16 + y / 4 == b as int && y % 4 * 64 + z == c as int
  }

  lemma GroupsJoin(a: Byte, b: Byte, c: Byte)
    ensures Join(FirstSix(a), SecondSix(a, b), ThirdSix(b, c), FourthSix(c), a, b, c)
  {
  }

  lemma DecodeTwo(s: string, w: Sextet, x: Sextet, a: Byte)
    requires |s| == 2 && SymbolValue(s[0]) == Some(w) && SymbolValue(s[1]) == Some(x)
    requires Join(w, x, 0, 0, a, 0, 0)
    ensures DecodeSymbols(s) == Some([a])
  {
    hide SymbolValue;
  }

  lemma DecodeThree(s: string, w: Sextet, x: Sextet, y: Sextet, a: Byte, b: Byte)
    requires |s| == 3 && SymbolValue(s[0]) == Some(w) && SymbolValue(s[1]) == Some(x) && SymbolValue(s[2]) == Some(y)
    requires Join(w, x, y, 0, a, b, 0)
    ensures DecodeSymbols(s) == Some([a, b])
  {
    hide SymbolValue;
  }

  lemma DecodeFour(s: string, w: Sextet, x: Sextet, y: Sextet, z: Sextet, a: Byte, b: Byte, c: Byte, rest: seq<Byte>)
    requires |s| >= 4 && SymbolValue(s[0]) == Some(w) && SymbolValue(s[1]) == Some(x)
    requires SymbolValue(s[2]) == Some(y) && SymbolValue(s[3]) == Some(z)
    requires DecodeSymbols(s[4..]) == Some(rest)
    requires Join(w, x, y, z, a, b, c)
    ensures DecodeSymbols(s) == Some([a, b, c] + rest)
  {
    hide SymbolValue;
  }

  lemma OneByte(bytes: seq<Byte>)
    requires |bytes| == 1
    ensures DecodeSymbols(Encode(bytes)) == Some(bytes)
  {
    GroupsJoin(bytes[0], 0, 0);
    assert ThirdSix(0, 0) == 0 == FourthSix(0);
    hide DecodeSymbols, Symbol, SymbolValue, FirstSix, SecondSix, Join;
    var w, x := FirstSix(bytes[0]), SecondSix(bytes[0], 0);
    SymbolRoundTrip(w);
    SymbolRoundTrip(x);
    DecodeTwo(Encode(bytes), w, x, bytes[0]);
    assert bytes == [bytes[0]];
  }

  lemma TwoBytes(bytes: seq<Byte>)
    requires |bytes| == 2
    ensures DecodeSymbols(Encode(bytes)) == Some(bytes)
  {
    GroupsJoin(bytes[0], bytes[1], 0);
    assert FourthSix(0) == 0;
    hide DecodeSymbols, Symbol, SymbolValue, FirstSix, SecondSix, ThirdSix, Join;
    var w, x, y := FirstSix(bytes[0]), SecondSix(bytes[0], bytes[1]), ThirdSix(bytes[1], 0);
    SymbolRoundTrip(w);
    SymbolRoundTrip(x);
    SymbolRoundTrip(y);
    DecodeThree(Encode(bytes), w, x, y, bytes[0], bytes[1]);
    assert bytes == [bytes[0], bytes[1]];
  }

  lemma EncodeThree(bytes: seq<Byte>)
    requires |bytes| >= 3
    ensures var s := Encode(bytes);
            && 4 <= |s| && s[0] == Symbol(FirstSix(bytes[0])) && s[1] == Symbol(SecondSix(bytes[0], bytes[1]))
            && s[2] == Symbol(ThirdSix(bytes[1], bytes[2])) && s[3] == Symbol(FourthSix(bytes[2]))
            && s[4..] == Encode(bytes[3..])
  {
    hide Symbol, FirstSix, SecondSix, ThirdSix, FourthSix;
  }

  lemma ThreeAndRest(bytes: seq<Byte>)
    requires |bytes| >= 3
    ensures [bytes[0], bytes[1], bytes[2]] + bytes[3..] == bytes
  {
  }

  lemma ThreeBytes(bytes: seq<Byte>)
    requires |bytes| >= 3 && DecodeSymbols(Encode(bytes[3..])) == Some(bytes[3..])
    ensures DecodeSymbols(Encode(bytes)) == Some(bytes)
  {
    GroupsJoin(bytes[0], bytes[1], bytes[2]);
    hide Encode, DecodeSymbols, Symbol, SymbolValue, FirstSix, SecondSix, ThirdSix, FourthSix, Join;
    var w, x := FirstSix(bytes[0]), SecondSix(bytes[0], bytes[1]);
    var y, z := ThirdSix(bytes[1], bytes[2]), FourthSix(bytes[2]);
    EncodeThree(bytes);
    SymbolRoundTrip(w);
    SymbolRoundTrip(x);
    SymbolRoundTrip(y);
    SymbolRoundTrip(z);
    DecodeFour(Encode(bytes), w, x, y, z, bytes[0], bytes[1], bytes[2], bytes[3..]);
    ThreeAndRest(bytes);
  }

  lemma {:induction false} SymbolsRoundTrip(bytes: seq<Byte>)
    ensures DecodeSymbols(Encode(bytes)) == Some(bytes)
  {
    if |bytes| == 1 {
      OneByte(bytes);
    } else if |bytes| == 2 {
      TwoBytes(bytes);
    } else if |bytes| >= 3 {
      SymbolsRoundTrip(bytes[3..]);
      ThreeBytes(bytes);
    }
  }

  /** Decoding undoes encoding, for every byte string. */
  lemma BytesRoundTrip(bytes: seq<Byte>)
    ensures Decode(Encode(bytes)) == Some(bytes)
  {
    EncodesSymbols(bytes);
    NoBreaksToDrop(Encode(bytes));
    SymbolsRoundTrip(bytes);
  }

  // ----- The alphabet of RFC 4648, section 5 -----

  lemma UpperLetter(i: nat)
    requires i < 26
    ensures "ABCDEFGHIJKLMNOPQRSTUVWXYZ"[i] == 'A' + i as char
  {
  }

  lemma LowerLetter(i: nat)
    requires i < 26
    ensures "abcdefghijklmnopqrstuvwxyz"[i] == 'a' + i as char
  {
  }

  lemma DigitOrMark(i: nat)
    requires i < 12
    ensures "0123456789-_"[i] == if i < 10 then '0' + i as char else if i == 10 then '-' else '_'
  {
  }

  lemma SymbolsOfAlphabet(x: Sextet)
    ensures Symbol(x) == ("ABCDEFGHIJKLMNOPQRSTUVWXYZ" + "abcdefghijklmnopqrstuvwxyz" + "0123456789-_")[x]
  {
    if x < 26 {
      UpperLetter(x);
    } else if x < 52 {
      LowerLetter(x - 26);
    } else {
      DigitOrMark(x - 52);
    }
  }

  /** The bytes of a group as one number of 24 bits, missing bytes as zero. */
  function GroupNumber(bytes: seq<Byte>, g: nat): (n: nat)
    requires 3 * g < |bytes|
    ensures n < 16777216
  {
    bytes[3 * g] as int * 65536
    + (if 3 * g + 1 < |bytes| then bytes[3 * g + 1] as int * 256 else 0)
    + (if 3 * g + 2 < |bytes| then bytes[3 * g + 2] as int else 0)
  }

  /** How many symbols a string of bytes takes: four for every three bytes, without padding. */
  function EncodedLength(n: nat): nat {
    n / 3 * 4 + (if n % 3 == 0 then 0 else n % 3 + 1)
  }

  /** The four groups of six bits are the digits of that number to the base 64. */
  lemma SixBits(a: Byte, b: Byte, c: Byte)
    ensures FirstSix(a) * 262144 + SecondSix(a, b) * 4096 + ThirdSix(b, c) * 64 + FourthSix(c)
            == a as int * 65536 + b as int * 256 + c as int
  {
  }

  lemma GroupSymbols(bytes: seq<Byte>) returns (w: Sextet, x: Sextet, y: Sextet, z: Sextet)
    requires bytes != []
    ensures w * 262144 + x * 4096 + y * 64 + z == GroupNumber(bytes, 0)
    ensures var s := Encode(bytes);
            && 2 <= |s| && s[0] == Symbol(w) && s[1] == Symbol(x)
            && (2 <= |bytes| ==> 3 <= |s| && s[2] == Symbol(y))
            && (3 <= |bytes| ==> 4 <= |s| && s[3] == Symbol(z) && s[4..] == Encode(bytes[3..]))
  {
    hide Symbol, FirstSix, SecondSix, ThirdSix, FourthSix;
    var a, b, c := bytes[0], if 2 <= |bytes| then bytes[1] else 0, if 3 <= |bytes| then bytes[2] else 0;
    SixBits(a, b, c);
    assert GroupNumber(bytes, 0) == a as int * 65536 + b as int * 256 + c as int;
    hide GroupNumber;
    w, x, y, z := FirstSix(a), SecondSix(a, b), ThirdSix(b, c), FourthSix(c);
  }

  /** Every group of three bytes becomes the four digits of its number to the base 64, the last group as many as it needs. */
  lemma {:induction false} EncodedDigits(bytes: seq<Byte>, g: nat) returns (w: Sextet, x: Sextet, y: Sextet, z: Sextet)
    requires 3 * g < |bytes|
    ensures |Encode(bytes)| == EncodedLength(|bytes|)
    ensures w * 262144 + x * 4096 + y * 64 + z == GroupNumber(bytes, g)
    ensures 4 * g + 1 < |Encode(bytes)| && Encode(bytes)[4 * g] == Symbol(w) && Encode(bytes)[4 * g + 1] == Symbol(x)
    ensures 3 * g + 1 < |bytes| ==> 4 * g + 2 < |Encode(bytes)| && Encode(bytes)[4 * g + 2] == Symbol(y)
    ensures 3 * g + 2 < |bytes| ==> 4 * g + 3 < |Encode(bytes)| && Encode(bytes)[4 * g + 3] == Symbol(z)
  {
    EncodedSize(bytes);
    hide Symbol, Encode, EncodedLength;
    if g == 0 {
      w, x, y, z := GroupSymbols(bytes);
    } else {
      var _, _, _, _ := GroupSymbols(bytes);
      w, x, y, z := EncodedDigits(bytes[3..], g - 1);
      assert GroupNumber(bytes[3..], g - 1) == GroupNumber(bytes, g);
      hide GroupNumber;
      assert Encode(bytes)[4..] == Encode(bytes[3..]);
    }
  }

  lemma {:induction false} EncodedSize(bytes: seq<Byte>)
    ensures |Encode(bytes)| == EncodedLength(|bytes|)
  {
    hide Symbol;
    if |bytes| >= 3 {
      EncodedSize(bytes[3..]);
      assert Encode(bytes)[4..] == Encode(bytes[3..]);
    }
  }

  // ----- The cursor -----

  ghost predicate TimeText(format: int -> seq<Byte>, parse: seq<Byte> -> Option<int>) {
    forall t :: parse(format(t)) == Some(t) && SEPARATOR !in format(t)
  }

  function EncodeCursor(format: int -> seq<Byte>, k: Key): string {
    Encode(format(k.at) + [SEPARATOR] + k.slug)
  }

  /** The position of the first separator, or the length. */
  function CutAt(raw: seq<Byte>): (i: nat)
    ensures i <= |raw|
  {
    if raw == [] || raw[0] == SEPARATOR then 0 else 1 + CutAt(raw[1..])
  }

  function DecodeCursor(parse: seq<Byte> -> Option<int>, s: string): Option<Key> {
    var raw := Decode(s);
    if raw.None? then None
    else
      var i := CutAt(raw.value);
      if i == |raw.value| then None
      else
        var at := parse(raw.value[..i]);
        if at.None? then None else Some(Key(at.value, raw.value[i + 1..]))
  }

  lemma {:induction false} CutBeforeSeparator(head: seq<Byte>, tail: seq<Byte>)
    requires SEPARATOR !in head
    ensures CutAt(head + [SEPARATOR] + tail) == |head|
  {
    if head == [] {
      assert (head + [SEPARATOR] + tail)[0] == SEPARATOR;
    } else {
      CutBeforeSeparator(head[1..], tail);
      assert (head + [SEPARATOR] + tail)[1..] == head[1..] + [SEPARATOR] + tail;
      assert head[0] in head;
    }
  }

  /** A cursor decodes to the key it encoded, also when the slug contains the separator. */
  lemma CursorRoundTrip(format: int -> seq<Byte>, parse: seq<Byte> -> Option<int>, k: Key)
    requires TimeText(format, parse)
    ensures Decode(EncodeCursor(format, k)) == Some(format(k.at) + ['|' as Byte] + k.slug)
    ensures DecodeCursor(parse, EncodeCursor(format, k)) == Some(k)
  {
    var head := format(k.at);
    var raw := head + [SEPARATOR] + k.slug;
    BytesRoundTrip(raw);
    CutBeforeSeparator(head, k.slug);
    assert raw[..|head|] == head && raw[|head| + 1..] == k.slug;
  }
}
