/**
 Decoding of an Algorand application's global state (`str_or_hex` and `decode_state`,
 adapted from Beaker's state_decode).

 `str_or_hex` reads bytes as strict UTF-8 (Python's `bytes.decode("utf-8")`: no
 overlong forms, no surrogates, nothing above U+10FFFF) and falls back to lower-case
 hexadecimal (`bytes.hex()`). Keys and byte values arrive base64-encoded; the model
 takes them already decoded.
 */
module StateDecode {
  import opened Basics

  newtype byte = b: int | 0 <= b < 256

  /** A UTF-8 continuation byte, `10xxxxxx`. */
  predicate IsCont(b: byte) {
    0x80 <= b < 0xC0
  }

  /** The scalar value a sequence may encode; surrogates are not characters. */
  predicate IsScalar(cp: int) {
    0 <= cp < 0xD800 || 0xE000 <= cp < 0x110000
  }

  /**
   The first character of `b` and how many bytes it takes, or `None` when `b` does not
   start with a well-formed UTF-8 sequence.
   */
  function DecodeOne(b: seq<byte>): (r: Option<(char, nat)>)
    ensures r.Some? ==> 1 <= r.value.1 <= 4 && r.value.1 <= |b|
  {
    if |b| == 0 then None
    else
      var b0 := b[0] as int;
      if b0 < 0x80 then Some((b0 as char, 1))
      else if 0xC2 <= b0 < 0xE0 then
        if |b| >= 2 && IsCont(b[1]) then
          Some((((b0 - 0xC0) * 64 + (b[1] as int - 0x80)) as char, 2))
        else None
      else if 0xE0 <= b0 < 0xF0 then
        if |b| >= 3 && IsCont(b[1]) && IsCont(b[2]) then
          var cp := (b0 - 0xE0) * 4096 + (b[1] as int - 0x80) * 64 + (b[2] as int - 0x80);
          if 0x800 <= cp && IsScalar(cp) then Some((cp as char, 3)) else None
        else None
      else if 0xF0 <= b0 < 0xF5 then
        if |b| >= 4 && IsCont(b[1]) && IsCont(b[2]) && IsCont(b[3]) then
          var cp := (b0 - 0xF0) * 262144 + (b[1] as int - 0x80) * 4096 + (b[2] as int - 0x80) * 64
                    + (b[3] as int - 0x80);
          if 0x10000 <= cp < 0x110000 then Some((cp as char, 4)) else None
        else None
      else None
  }

  /** `bytes.decode("utf-8")`: `None` where Python raises `UnicodeDecodeError`. */
  function Utf8Decode(b: seq<byte>): (r: Option<string>)
    ensures |b| == 0 ==> r == Some([])
    ensures r.Some? ==> |r.value| <= |b| <= 4 * |r.value|
    decreases |b|
  {
    if |b| == 0 then Some([])
    else
      match DecodeOne(b)
      case None => None
      case Some((c, n)) =>
        match Utf8Decode(b[n..])
        case None => None
        case Some(rest) => Some([c] + rest)
  }

  /** `str.encode("utf-8")` of one character: 1 to 4 bytes by the size of its code point. */
  function EncodeChar(c: char): (r: seq<byte>)
    ensures 1 <= |r| <= 4
  {
    var cp := c as int;
    var q1, r0 := cp / 64, cp % 64;
    var q2, r1 := q1 / 64, q1 % 64;
    var q3, r2 := q2 / 64, q2 % 64;
    if cp < 0x80 then [cp as byte]
    else if cp < 0x800 then [(0xC0 + q1) as byte, (0x80 + r0) as byte]
    else if cp < 0x10000 then [(0xE0 + q2) as byte, (0x80 + r1) as byte, (0x80 + r0) as byte]
    else [(0xF0 + q3) as byte, (0x80 + r2) as byte, (0x80 + r1) as byte, (0x80 + r0) as byte]
  }

  function Utf8Encode(s: string): seq<byte> {
    if |s| == 0 then [] else EncodeChar(s[0]) + Utf8Encode(s[1..])
  }

  lemma Div64(x: int, q: int, r: int)
    requires 0 <= r < 64 && x == q * 64 + r
    ensures x / 64 == q && x % 64 == r
  {
  }

  /** A character's encoding, followed by anything, decodes back to the character. */
  lemma DecodeOneEncodeChar(c: char, rest: seq<byte>)
    ensures DecodeOne(EncodeChar(c) + rest) == Some((c, |EncodeChar(c)|))
  {
    var cp := c as int;
    if cp < 0x80 {
    } else if cp < 0x800 {
      DecodeTwoBytes(c, rest);
    } else if cp < 0x10000 {
      DecodeThreeBytes(c, rest);
    } else {
      DecodeFourBytes(c, rest);
    }
  }

  lemma DecodeTwoBytes(c: char, rest: seq<byte>)
    requires 0x80 <= c as int < 0x800
    ensures DecodeOne(EncodeChar(c) + rest) == Some((c, 2))
  {
    var b := EncodeChar(c) + rest;
    var cp := c as int;
    var q1, r0 := cp / 64, cp % 64;
    assert b[0] as int == 0xC0 + q1 && b[1] as int == 0x80 + r0;
  }

  lemma DecodeThreeBytes(c: char, rest: seq<byte>)
    requires 0x800 <= c as int < 0x10000
    ensures DecodeOne(EncodeChar(c) + rest) == Some((c, 3))
  {
    var b := EncodeChar(c) + rest;
    var cp := c as int;
    var q1, r0 := cp / 64, cp % 64;
    var q2, r1 := q1 / 64, q1 % 64;
    assert b[0] as int == 0xE0 + q2 && b[1] as int == 0x80 + r1 && b[2] as int == 0x80 + r0;
    assert cp == q2 * 4096 + r1 * 64 + r0;
  }

  lemma DecodeFourBytes(c: char, rest: seq<byte>)
    requires 0x10000 <= c as int
    ensures DecodeOne(EncodeChar(c) + rest) == Some((c, 4))
  {
    var b := EncodeChar(c) + rest;
    var cp := c as int;
    var q1, r0 := cp / 64, cp % 64;
    var q2, r1 := q1 / 64, q1 % 64;
    var q3, r2 := q2 / 64, q2 % 64;
    assert b[0] as int == 0xF0 + q3 && b[1] as int == 0x80 + r2;
    assert b[2] as int == 0x80 + r1 && b[3] as int == 0x80 + r0;
    assert cp == q3 * 262144 + r2 * 4096 + r1 * 64 + r0;
  }

  /** A well-formed sequence is the encoding of the character it decodes to. */
  lemma EncodeCharOfDecodeOne(b: seq<byte>)
    requires DecodeOne(b).Some?
    ensures EncodeChar(DecodeOne(b).value.0) == b[..DecodeOne(b).value.1]
  {
    var n := DecodeOne(b).value.1;
    if n == 2 {
      EncodeTwoBytes(b);
    } else if n == 3 {
      EncodeThreeBytes(b);
    } else if n == 4 {
      EncodeFourBytes(b);
    }
  }

  lemma EncodeTwoBytes(b: seq<byte>)
    requires DecodeOne(b).Some? && DecodeOne(b).value.1 == 2
    ensures EncodeChar(DecodeOne(b).value.0) == b[..2]
  {
    var cp := DecodeOne(b).value.0 as int;
    Div64(cp, b[0] as int - 0xC0, b[1] as int - 0x80);
  }

  lemma EncodeThreeBytes(b: seq<byte>)
    requires DecodeOne(b).Some? && DecodeOne(b).value.1 == 3
    ensures EncodeChar(DecodeOne(b).value.0) == b[..3]
  {
    var cp := DecodeOne(b).value.0 as int;
    var x0, x1, x2 := b[0] as int - 0xE0, b[1] as int - 0x80, b[2] as int - 0x80;
    Div64(cp, x0 * 64 + x1, x2);
    Div64(x0 * 64 + x1, x0, x1);
  }

  lemma EncodeFourBytes(b: seq<byte>)
    requires DecodeOne(b).Some? && DecodeOne(b).value.1 == 4
    ensures EncodeChar(DecodeOne(b).value.0) == b[..4]
  {
    var cp := DecodeOne(b).value.0 as int;
    var x0, x1, x2, x3 := b[0] as int - 0xF0, b[1] as int - 0x80, b[2] as int - 0x80, b[3] as int - 0x80;
    Div64(cp, x0 * 4096 + x1 * 64 + x2, x3);
    Div64(x0 * 4096 + x1 * 64 + x2, x0 * 64 + x1, x2);
    Div64(x0 * 64 + x1, x0, x1);
  }

  /** Encoding then decoding gives the text back. */
  lemma {:induction false} DecodeEncode(s: string)
    ensures Utf8Decode(Utf8Encode(s)) == Some(s)
    decreases |s|
  {
    if |s| > 0 {
      var e := EncodeChar(s[0]);
      DecodeOneEncodeChar(s[0], Utf8Encode(s[1..]));
      assert (e + Utf8Encode(s[1..]))[|e|..] == Utf8Encode(s[1..]);
      DecodeEncode(s[1..]);
      assert [s[0]] + s[1..] == s;
    }
  }

  /** Decoding then encoding gives the bytes back: decoding is one-to-one. */
  lemma {:induction false} EncodeDecode(b: seq<byte>)
    requires Utf8Decode(b).Some?
    ensures Utf8Encode(Utf8Decode(b).value) == b
    decreases |b|
  {
    if |b| > 0 {
      DecodeStep(b);
      var c, n := DecodeOne(b).value.0, DecodeOne(b).value.1;
      var rest := Utf8Decode(b[n..]).value;
      calc {
        Utf8Encode(Utf8Decode(b).value);
        Utf8Encode([c] + rest);
        { EncodeCons(c, rest); }
        EncodeChar(c) + Utf8Encode(rest);
        { EncodeCharOfDecodeOne(b); EncodeDecode(b[n..]); }
        b[..n] + b[n..];
        b;
      }
    }
  }

  /** A non-empty well-formed sequence is its first character followed by the rest. */
  lemma DecodeStep(b: seq<byte>)
    requires |b| > 0 && Utf8Decode(b).Some?
    ensures DecodeOne(b).Some? && Utf8Decode(b[DecodeOne(b).value.1..]).Some?
    ensures Utf8Decode(b).value == [DecodeOne(b).value.0] + Utf8Decode(b[DecodeOne(b).value.1..]).value
  {
  }

  lemma EncodeCons(c: char, s: string)
    ensures Utf8Encode([c] + s) == EncodeChar(c) + Utf8Encode(s)
  {
    assert ([c] + s)[0] == c && ([c] + s)[1..] == s;
  }

  const HexDigits := "0123456789abcdef"

  /** `bytes.hex()`: two lower-case hexadecimal digits per byte. */
  function Hex(b: seq<byte>): (r: string)
    ensures |r| == 2 * |b|
  {
    if |b| == 0 then [] else [HexDigits[b[0] as int / 16], HexDigits[b[0] as int % 16]] + Hex(b[1..])
  }

  /** The value of a lower-case hexadecimal digit. */
  function HexValue(c: char): (r: Option<int>)
    ensures r.Some? ==> 0 <= r.value < 16 && HexDigits[r.value] == c
  {
    if '0' <= c <= '9' then Some(c as int - '0' as int)
    else if 'a' <= c <= 'f' then Some(c as int - 'a' as int + 10)
    else None
  }

  /** The inverse of `Hex`: pairs of lower-case digits back to bytes. */
  function Unhex(s: string): (r: Option<seq<byte>>)
    decreases |s|
  {
    if |s| == 0 then Some([])
    else if |s| == 1 then None
    else
      match (HexValue(s[0]), HexValue(s[1]), Unhex(s[2..]))
      case (Some(hi), Some(lo), Some(rest)) => Some([(hi * 16 + lo) as byte] + rest)
      case _ => None
  }

  lemma {:induction false} UnhexHex(b: seq<byte>)
    ensures Unhex(Hex(b)) == Some(b)
    decreases |b|
  {
    if |b| > 0 {
      var x := b[0] as int;
      var hi, lo := x / 16, x % 16;
      ByteDigits(x);
      var h := Hex(b);
      HexDigitValue(hi);
      HexDigitValue(lo);
      assert h == [HexDigits[hi], HexDigits[lo]] + Hex(b[1..]);
      assert h[0] == HexDigits[hi] && h[1] == HexDigits[lo] && h[2..] == Hex(b[1..]);
      UnhexHex(b[1..]);
      UnhexPair(h, hi, lo);
      assert (hi * 16 + lo) as byte == b[0];
      assert Unhex(h) == Some([b[0]] + b[1..]);
      assert [b[0]] + b[1..] == b;
    }
  }

  /** A byte is its high hex digit times 16 plus its low one. */
  lemma ByteDigits(x: int)
    requires 0 <= x < 256
    ensures 0 <= x / 16 < 16 && 0 <= x % 16 < 16 && x / 16 * 16 + x % 16 == x
  {
  }

  /** Two digits followed by well-formed digits read as one byte followed by the rest. */
  lemma UnhexPair(s: string, hi: int, lo: int)
    requires |s| >= 2 && HexValue(s[0]) == Some(hi) && HexValue(s[1]) == Some(lo) && Unhex(s[2..]).Some?
    ensures Unhex(s) == Some([(hi * 16 + lo) as byte] + Unhex(s[2..]).value)
  {
  }

  lemma HexDigitValue(x: int)
    requires 0 <= x < 16
    ensures HexValue(HexDigits[x]) == Some(x)
  {
  }

  /** `str_or_hex(v)`: the UTF-8 text of `v` when it is well-formed, its hexadecimal digits otherwise. */
  function StrOrHex(v: seq<byte>): (r: string)
    ensures Utf8Decode(v).Some? ==> r == Utf8Decode(v).value && Utf8Encode(r) == v
    ensures Utf8Decode(v).None? ==> |r| == 2 * |v| && Unhex(r) == Some(v)
  {
    match Utf8Decode(v)
    case Some(s) =>
      EncodeDecode(v);
      s
    case None =>
      UnhexHex(v);
      Hex(v)
  }

  /**
   Two byte strings with the same `str_or_hex` are equal unless exactly one of them is
   well-formed UTF-8: within each kind the conversion loses nothing.
   */
  lemma StrOrHexCollision(a: seq<byte>, b: seq<byte>)
    requires StrOrHex(a) == StrOrHex(b) && a != b
    ensures Utf8Decode(a).Some? != Utf8Decode(b).Some?
  {
  }

  /** The collision does happen: the text "ab" and the single byte 0xAB both read "ab". */
  lemma TextAndHexCollide()
    ensures StrOrHex([0x61, 0x62]) == StrOrHex([0xAB]) == "ab"
  {
    var ab: seq<byte> := [0x61, 0x62];
    var b: seq<byte> := [0x62];
    assert ab[1..] == b && b[1..] == [];
    assert DecodeOne(ab) == Some(('a', 1)) && DecodeOne(b) == Some(('b', 1));
    assert Utf8Decode(b) == Some("b") by { assert Utf8Decode(b[1..]) == Some([]) && ['b'] + [] == "b"; }
    assert Utf8Decode(ab) == Some("ab") by { assert ['a'] + "b" == "ab"; }
    assert DecodeOne([0xAB]) == None;
    assert Hex([0xAB]) == [HexDigits[10], HexDigits[11]] + Hex([]);
  }

  /** One entry's value, as read by `decode_state`. */
  datatype TealValue = TealValue(action: Option<int>, typ: Option<int>, bytes: Option<seq<byte>>, uint: Option<int>)

  /** One entry of the state: its key (already base64-decoded) and value. */
  datatype StateEntry = StateEntry(key: seq<byte>, value: TealValue)

  /** A key of the decoded state: the raw bytes, or their `str_or_hex` text. */
  datatype Key = RawKey(raw: seq<byte>) | TextKey(text: string)

  /** A value of the decoded state; `Null` is Python's `None`. */
  datatype Value = Null | Text(text: string) | Raw(raw: seq<byte>) | Uint(n: int)

  /** The `KeyError`s `decode_state` can raise. */
  datatype DecodeError = NoActionOrType | NoBytes | NoUint

  function KeyOf(e: StateEntry, raw: bool): Key {
    if raw then RawKey(e.key) else TextKey(StrOrHex(e.key))
  }

  /** The action of an entry: `action` if present, else `type`. */
  function ActionOf(v: TealValue): (r: Option<int>)
    ensures v.action.Some? ==> r == v.action
    ensures v.action.None? ==> r == v.typ
  {
    if v.action.Some? then v.action else v.typ
  }

  /** One entry's value: 1 is bytes, 2 an unsigned integer, anything else `None`. */
  function ValueOf(v: TealValue, raw: bool): (r: Result<Value, DecodeError>)
    ensures ActionOf(v).None? <==> r == Err(NoActionOrType)
    ensures r == Err(NoBytes) <==> ActionOf(v) == Some(1) && v.bytes.None?
    ensures r == Err(NoUint) <==> ActionOf(v) == Some(2) && v.uint.None?
    ensures r.Ok? && ActionOf(v) == Some(1) ==>
              r.value == if raw then Raw(v.bytes.value) else Text(StrOrHex(v.bytes.value))
    ensures r.Ok? && ActionOf(v) == Some(2) ==> r.value == Uint(v.uint.value)
    ensures r.Ok? && ActionOf(v) != Some(1) && ActionOf(v) != Some(2) ==> r.value == Null
  {
    match ActionOf(v)
    case None => Err(NoActionOrType)
    case Some(a) =>
      if a == 1 then
        (match v.bytes
         case None => Err(NoBytes)
         case Some(b) => Ok(if raw then Raw(b) else Text(StrOrHex(b))))
      else if a == 2 then
        (match v.uint
         case None => Err(NoUint)
         case Some(n) => Ok(Uint(n)))
      else Ok(Null)
  }

  /** `decode_state(state, raw)`: the entries in order into a dictionary, later entries overwriting earlier ones. */
  function DecodeState(state: seq<StateEntry>, raw: bool): (r: Result<map<Key, Value>, DecodeError>)
    ensures r.Ok? <==> AllValuesOk(state, raw)
    decreases |state|
  {
    if |state| == 0 then Ok(map[])
    else
      var n := |state| - 1;
      var prev := DecodeState(state[..n], raw);
      var last := ValueOf(state[n].value, raw);
      AllValuesOkLast(state, raw);
      if prev.Err? then prev
      else if last.Err? then Err(last.error)
      else Ok(prev.value[KeyOf(state[n], raw) := last.value])
  }

  /** Every entry's value can be read. */
  predicate AllValuesOk(state: seq<StateEntry>, raw: bool) {
    forall k :: 0 <= k < |state| ==> ValueOf(state[k].value, raw).Ok?
  }

  /** Every value can be read exactly when every value but the last can, and the last can. */
  lemma AllValuesOkLast(state: seq<StateEntry>, raw: bool)
    requires |state| > 0
    ensures var n := |state| - 1;
            AllValuesOk(state, raw) <==> AllValuesOk(state[..n], raw) && ValueOf(state[n].value, raw).Ok?
  {
    var n := |state| - 1;
    PrefixEntries(state, n);
    if AllValuesOk(state[..n], raw) && ValueOf(state[n].value, raw).Ok? {
      forall k | 0 <= k < |state| ensures ValueOf(state[k].value, raw).Ok? {
        if k < n {
          assert ValueOf(state[..n][k].value, raw).Ok?;
        }
      }
    }
  }

  /** The entries before position `n` are those of the prefix of length `n`. */
  lemma PrefixEntries(state: seq<StateEntry>, n: nat)
    requires n <= |state|
    ensures forall k :: 0 <= k < n ==> state[..n][k] == state[k]
  {
  }

  /** A decoded state is the decoded prefix updated with the last entry. */
  lemma DecodeStateLast(state: seq<StateEntry>, raw: bool)
    requires |state| > 0 && DecodeState(state, raw).Ok?
    ensures var n := |state| - 1;
            && DecodeState(state[..n], raw).Ok? && ValueOf(state[n].value, raw).Ok?
            && DecodeState(state, raw).value
               == DecodeState(state[..n], raw).value[KeyOf(state[n], raw) := ValueOf(state[n].value, raw).value]
  {
  }

  /** The decoded keys are exactly the keys of the entries. */
  lemma {:induction false} DecodeStateKeys(state: seq<StateEntry>, raw: bool)
    requires DecodeState(state, raw).Ok?
    ensures forall key :: key in DecodeState(state, raw).value <==>
                          exists k :: 0 <= k < |state| && KeyOf(state[k], raw) == key
    decreases |state|
  {
    if |state| > 0 {
      var n := |state| - 1;
      DecodeStateLast(state, raw);
      DecodeStateKeys(state[..n], raw);
      PrefixEntries(state, n);
      var m := DecodeState(state[..n], raw).value;
      forall key | key in DecodeState(state, raw).value
        ensures exists k :: 0 <= k < |state| && KeyOf(state[k], raw) == key
      {
        if key != KeyOf(state[n], raw) {
          assert key in m;
          var k :| 0 <= k < n && KeyOf(state[..n][k], raw) == key;
          assert KeyOf(state[k], raw) == key;
        }
      }
      forall k | 0 <= k < |state| {
        EntryKeyKept(state, raw, k);
      }
    }
  }

  /** The key of every entry is in the decoded state. */
  lemma {:induction false} EntryKeyKept(state: seq<StateEntry>, raw: bool, k: nat)
    requires DecodeState(state, raw).Ok? && k < |state|
    ensures KeyOf(state[k], raw) in DecodeState(state, raw).value
    decreases |state|
  {
    var n := |state| - 1;
    DecodeStateLast(state, raw);
    if k < n {
      assert state[..n][k] == state[k];
      EntryKeyKept(state[..n], raw, k);
      assert KeyOf(state[k], raw) in DecodeState(state[..n], raw).value;
    } else {
      assert k == n;
    }
  }

  /** Each key holds the value of the last entry with that key. */
  lemma {:induction false} LastEntryWins(state: seq<StateEntry>, raw: bool, k: nat)
    requires DecodeState(state, raw).Ok? && k < |state|
    requires forall j :: k < j < |state| ==> KeyOf(state[j], raw) != KeyOf(state[k], raw)
    ensures KeyOf(state[k], raw) in DecodeState(state, raw).value
    ensures DecodeState(state, raw).value[KeyOf(state[k], raw)] == ValueOf(state[k].value, raw).value
    decreases |state|
  {
    var n := |state| - 1;
    DecodeStateLast(state, raw);
    if k < n {
      PrefixEntries(state, n);
      LastEntryWins(state[..n], raw, k);
    }
  }

  /** Two entries decode to the dictionary built from the first, then updated with the second. */
  lemma DecodeTwo(e0: StateEntry, e1: StateEntry, raw: bool)
    requires ValueOf(e0.value, raw).Ok? && ValueOf(e1.value, raw).Ok?
    ensures DecodeState([e0, e1], raw)
            == Ok(map[KeyOf(e0, raw) := ValueOf(e0.value, raw).value][KeyOf(e1, raw) := ValueOf(e1.value, raw).value])
  {
    var state := [e0, e1];
    var v0, v1 := ValueOf(e0.value, raw).value, ValueOf(e1.value, raw).value;
    assert DecodeState([e0], raw) == Ok(map[KeyOf(e0, raw) := v0]) by {
      assert [e0][..0] == [];
    }
    assert state[..1] == [e0];
    assert DecodeState(state, raw) == Ok(map[KeyOf(e0, raw) := v0][KeyOf(e1, raw) := v1]);
  }

  /** Two entries with the same key decode to that key alone, holding the second value. */
  lemma SameKeyMerges(e0: StateEntry, e1: StateEntry, raw: bool)
    requires ValueOf(e0.value, raw).Ok? && ValueOf(e1.value, raw).Ok?
    requires KeyOf(e0, raw) == KeyOf(e1, raw)
    ensures DecodeState([e0, e1], raw) == Ok(map[KeyOf(e1, raw) := ValueOf(e1.value, raw).value])
  {
    DecodeTwo(e0, e1, raw);
    var key := KeyOf(e1, raw);
    var a, b := ValueOf(e0.value, raw).value, ValueOf(e1.value, raw).value;
    assert map[key := a][key := b] == map[key := b];
  }

  /** Two keys with the same text ("ab" and the byte 0xAB) merge into one: the later entry's value survives. */
  lemma CollidingKeysMerge(v1: TealValue, v2: TealValue)
    requires ValueOf(v1, false).Ok? && ValueOf(v2, false).Ok?
    ensures DecodeState([StateEntry([0x61, 0x62], v1), StateEntry([0xAB], v2)], false)
            == Ok(map[TextKey("ab") := ValueOf(v2, false).value])
  {
    TextAndHexCollide();
    var e1, e2 := StateEntry([0x61, 0x62], v1), StateEntry([0xAB], v2);
    assert KeyOf(e2, false) == TextKey("ab");
    SameKeyMerges(e1, e2, false);
  }

  /** Read raw, the same two entries keep both keys. */
  lemma RawKeysStayApart(v1: TealValue, v2: TealValue)
    requires ValueOf(v1, true).Ok? && ValueOf(v2, true).Ok?
    ensures var state := [StateEntry([0x61, 0x62], v1), StateEntry([0xAB], v2)];
            DecodeState(state, true).Ok? && |DecodeState(state, true).value.Keys| == 2
  {
    var k1: seq<byte>, k2: seq<byte> := [0x61, 0x62], [0xAB];
    DecodeTwo(StateEntry(k1, v1), StateEntry(k2, v2), true);
    assert RawKey(k1) != RawKey(k2) by {
      assert k1[0] != k2[0];
    }
    assert DecodeState([StateEntry(k1, v1), StateEntry(k2, v2)], true).value.Keys == {RawKey(k1), RawKey(k2)};
  }
}
