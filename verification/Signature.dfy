// The detached signature file: its text, the strict parser of that text, and
// the hexadecimal and decimal fields inside.
module Signature {
  import opened Bytes
  import opened Sequences
  import opened Format

  const SIGNATURE_HEADER := "RGX-SIGNATURE-1"
  const ALGORITHM := "Ed25519"
  const KEY_ID_SIZE: nat := 16
  const HASH_SIZE: nat := 32
  const SIGNATURE_SIZE: nat := 64

  datatype SignatureRecord = SignatureRecord(
    keyId: seq<byte>, archiveLen: nat, archiveHash: seq<byte>, signature: seq<byte>)
  {
    predicate Fits() {
      && |keyId| == KEY_ID_SIZE && |archiveHash| == HASH_SIZE && |signature| == SIGNATURE_SIZE
      && archiveLen <= U64_MAX
    }
  }

  // ------------------------------------------------------------- hexadecimal

  function HexDigit(n: int): (c: char)
    requires 0 <= n < 16
  {
    if n < 10 then '0' + n as char else 'a' + (n - 10) as char
  }

  function HexEncode(b: seq<byte>): (s: string)
    ensures |s| == 2 * |b|
  {
    if b == [] then ""
    else HexEncode(b[..|b| - 1]) + [HexDigit(b[|b| - 1] as int / 16), HexDigit(b[|b| - 1] as int % 16)]
  }

  function DecodeNibble(c: char): (n: Option<int>)
    ensures n.Some? ==> 0 <= n.value < 16
  {
    if '0' <= c <= '9' then Some(c as int - '0' as int)
    else if 'a' <= c <= 'f' then Some(c as int - 'a' as int + 10)
    else if 'A' <= c <= 'F' then Some(c as int - 'A' as int + 10)
    else None
  }

  // The bytes of an even-length run of hexadecimal digits.
  function HexPairs(s: string): Option<seq<byte>>
    requires |s| % 2 == 0
  {
    if s == "" then Some([])
    else
      var n := |s| - 2;
      var before := HexPairs(s[..n]);
      var high, low := DecodeNibble(s[n]), DecodeNibble(s[n + 1]);
      if before.None? || high.None? || low.None? then None
      else Some(before.value + [(high.value * 16 + low.value) as byte])
  }

  function HexDecode(size: nat, s: string): Option<seq<byte>> {
    if |s| != 2 * size then None else HexPairs(s)
  }

  function LowerDigit(c: char): char {
    if 'A' <= c <= 'F' then (c as int - 'A' as int + 'a' as int) as char else c
  }

  function Lower(s: string): (r: string)
    ensures |r| == |s|
  {
    if s == "" then "" else Lower(s[..|s| - 1]) + [LowerDigit(s[|s| - 1])]
  }

  lemma NibbleCodec(c: char, n: int)
    requires 0 <= n < 16
    ensures DecodeNibble(c) == Some(n) <==> LowerDigit(c) == HexDigit(n)
  {
  }

  // Decoding accepts exactly the encoding, in either case.
  lemma {:induction false} HexCodec(s: string, b: seq<byte>)
    requires |s| == 2 * |b|
    ensures HexPairs(s) == Some(b) <==> Lower(s) == HexEncode(b)
  {
    hide DecodeNibble, LowerDigit, HexDigit;
    if s != "" {
      var n := |s| - 2;
      var init, last := b[..|b| - 1], b[|b| - 1];
      HexCodec(s[..n], init);
      LowerPair(s, b);
      NibbleCodec(s[n], last as int / 16);
      NibbleCodec(s[n + 1], last as int % 16);
      PairCodec(s, b);
    }
  }

  lemma LowerPair(s: string, b: seq<byte>)
    requires |s| == 2 * |b| && s != ""
    ensures var n, last := |s| - 2, b[|b| - 1] as int;
      Lower(s) == HexEncode(b) <==>
        && Lower(s[..n]) == HexEncode(b[..|b| - 1])
        && LowerDigit(s[n]) == HexDigit(last / 16) && LowerDigit(s[n + 1]) == HexDigit(last % 16)
  {
    hide LowerDigit, HexDigit, HexEncode;
    var n, last := |s| - 2, b[|b| - 1] as int;
    LowerTwo(s);
    EncodeOne(b);
    hide Lower;
    SamePairs(Lower(s[..n]), LowerDigit(s[n]), LowerDigit(s[n + 1]),
              HexEncode(b[..|b| - 1]), HexDigit(last / 16), HexDigit(last % 16));
  }

  lemma LowerTwo(s: string)
    requires |s| >= 2
    ensures var n := |s| - 2;
      Lower(s) == Lower(s[..n]) + [LowerDigit(s[n]), LowerDigit(s[n + 1])]
  {
    hide Lower, LowerDigit;
    var n := |s| - 2;
    LastTwo(s);
    LowerBehind(s[..n], s[n], s[n + 1]);
  }

  lemma LowerBehind(init: string, x: char, y: char)
    ensures Lower(init + [x] + [y]) == Lower(init) + [LowerDigit(x), LowerDigit(y)]
  {
    hide Lower, LowerDigit;
    LowerSnoc(init + [x], y);
    LowerSnoc(init, x);
    SnocTwo(Lower(init), LowerDigit(x), LowerDigit(y));
  }

  lemma LowerSnoc(s: string, c: char)
    ensures Lower(s + [c]) == Lower(s) + [LowerDigit(c)]
  {
    hide LowerDigit;
    assert (s + [c])[..|s|] == s;
  }

  lemma EncodeOne(b: seq<byte>)
    requires b != []
    ensures var last := b[|b| - 1] as int;
      HexEncode(b) == HexEncode(b[..|b| - 1]) + [HexDigit(last / 16), HexDigit(last % 16)]
  {
  }

  lemma SamePairs(a: string, x: char, y: char, b: string, u: char, v: char)
    requires |a| == |b|
    ensures a + [x, y] == b + [u, v] <==> a == b && x == u && y == v
  {
    if a + [x, y] == b + [u, v] {
      assert (a + [x, y])[..|a|] == a && (b + [u, v])[..|a|] == b;
      assert (a + [x, y])[|a|] == x && (b + [u, v])[|a|] == u;
      assert (a + [x, y])[|a| + 1] == y && (b + [u, v])[|a| + 1] == v;
    }
  }

  lemma PairCodec(s: string, b: seq<byte>)
    requires |s| == 2 * |b| && s != ""
    ensures var n, last := |s| - 2, b[|b| - 1] as int;
      HexPairs(s) == Some(b) <==>
        && HexPairs(s[..n]) == Some(b[..|b| - 1])
        && DecodeNibble(s[n]) == Some(last / 16) && DecodeNibble(s[n + 1]) == Some(last % 16)
  {
    hide DecodeNibble;
    var n := |s| - 2;
    assert b == b[..|b| - 1] + [b[|b| - 1]];
    var before, high, low := HexPairs(s[..n]), DecodeNibble(s[n]), DecodeNibble(s[n + 1]);
    if before.Some? && high.Some? && low.Some? {
      var pair := high.value * 16 + low.value;
      assert pair / 16 == high.value && pair % 16 == low.value;
      assert (before.value + [pair as byte])[..|before.value|] == before.value;
    }
  }

  method HexEncodeLoop(b: seq<byte>) returns (s: string)
    ensures s == HexEncode(b)
  {
    s := "";
    var i := 0;
    while i < |b|
      invariant i <= |b| && s == HexEncode(b[..i])
    {
      s := s + [HexDigit(b[i] as int / 16)];
      s := s + [HexDigit(b[i] as int % 16)];
      assert b[..i + 1][..i] == b[..i];
      i := i + 1;
    }
    assert b[..i] == b;
  }

  method HexDecodeLoop(size: nat, value: string) returns (r: Result<seq<byte>>)
    ensures r.Ok? <==> HexDecode(size, value).Some?
    ensures r.Ok? ==> HexDecode(size, value) == Some(r.value)
  {
    hide DecodeNibble;
    if |value| != size * 2 {
      return Err(BadHeader);
    }
    var output: seq<byte> := [];
    var i := 0;
    assert value[..0] == "";
    while i < size
      invariant i <= size && HexPairs(value[..2 * i]) == Some(output)
    {
      var longer := value[..2 * i + 2];
      assert longer[..2 * i] == value[..2 * i];
      var high, low := DecodeNibble(value[2 * i]), DecodeNibble(value[2 * i + 1]);
      if high.None? || low.None? {
        HexPrefix(value, 2 * i + 2);
        return Err(BadHeader);
      }
      output := output + [(high.value * 16 + low.value) as byte];
      i := i + 1;
    }
    assert value[..2 * i] == value;
    r := Ok(output);
  }

  lemma {:induction false} HexPrefix(s: string, k: nat)
    requires |s| % 2 == 0 && k % 2 == 0 && k <= |s| && HexPairs(s[..k]).None?
    ensures HexPairs(s).None?
  {
    hide DecodeNibble;
    if k == |s| {
      assert s[..k] == s;
    } else {
      assert s[..|s| - 2][..k] == s[..k];
      HexPrefix(s[..|s| - 2], k);
    }
  }

  // ----------------------------------------------------------------- decimal

  predicate IsDigit(c: char) {
    '0' <= c <= '9'
  }

  function DigitOf(n: int): char
    requires 0 <= n < 10
  {
    '0' + n as char
  }

  function Decimal(n: nat): (s: string)
    ensures s != ""
  {
    if n < 10 then [DigitOf(n)] else Decimal(n / 10) + [DigitOf(n % 10)]
  }

  // The value of a run of digits, possibly empty.
  function DigitsValue(s: string): Option<nat> {
    if s == "" then Some(0)
    else
      var before := DigitsValue(s[..|s| - 1]);
      var c := s[|s| - 1];
      if before.None? || !IsDigit(c) then None
      else Some(before.value * 10 + (c as int - '0' as int))
  }

  // A 64-bit number as the standard library pieces it: an optional plus sign,
  // then at least one digit.
  function ParseU64(s: string): Option<nat> {
    var digits := if s != "" && s[0] == '+' then s[1..] else s;
    var value := DigitsValue(digits);
    if digits == "" || value.None? || value.value > U64_MAX then None else value
  }

  function Zeros(k: nat): (s: string)
    ensures |s| == k
  {
    if k == 0 then "" else "0" + Zeros(k - 1)
  }

  lemma {:induction false} DecimalValue(zeros: string, n: nat)
    requires forall i :: 0 <= i < |zeros| ==> zeros[i] == '0'
    ensures DigitsValue(zeros + Decimal(n)) == Some(n)
  {
    var s := zeros + Decimal(n);
    if n < 10 {
      assert s[..|s| - 1] == zeros;
      ZerosValue(zeros);
    } else {
      assert s[..|s| - 1] == zeros + Decimal(n / 10);
      DecimalValue(zeros, n / 10);
    }
  }

  lemma {:induction false} ZerosValue(zeros: string)
    requires forall i :: 0 <= i < |zeros| ==> zeros[i] == '0'
    ensures DigitsValue(zeros) == Some(0)
  {
    if zeros != "" {
      ZerosValue(zeros[..|zeros| - 1]);
    }
  }

  lemma {:induction false} ZerosAre(k: nat)
    ensures forall i :: 0 <= i < k ==> Zeros(k)[i] == '0'
  {
    if k > 0 {
      ZerosAre(k - 1);
    }
  }

  lemma ZerosGrow(k: nat)
    ensures Zeros(k) + "0" == Zeros(k + 1)
  {
    ZerosAre(k);
    ZerosAre(k + 1);
  }

  // A run of digits with a value is its plain decimal form behind zeros.
  lemma {:induction false} DigitsAreDecimal(s: string) returns (k: nat)
    requires s != "" && DigitsValue(s).Some?
    ensures s == Zeros(k) + Decimal(DigitsValue(s).value)
  {
    hide Decimal;
    var init, c := s[..|s| - 1], s[|s| - 1];
    var d := c as int - '0' as int;
    SmallDecimal(d);
    SmallDecimal(0);
    assert s == init + [c] && c == DigitOf(d);
    if init == "" {
      k := 0;
    } else {
      k := DigitsAreDecimal(init);
      var m := DigitsValue(init).value;
      if m == 0 {
        ZerosGrow(k);
        k := k + 1;
      } else {
        DecimalGrows(m, d);
      }
    }
  }

  lemma SmallDecimal(d: nat)
    ensures d < 10 ==> Decimal(d) == [DigitOf(d)]
  {
  }

  lemma DecimalGrows(m: nat, d: nat)
    requires m > 0 && d < 10
    ensures Decimal(m * 10 + d) == Decimal(m) + [DigitOf(d)]
  {
    assert (m * 10 + d) / 10 == m && (m * 10 + d) % 10 == d;
  }

  function Signed(plus: bool, digits: string): string {
    if plus then "+" + digits else digits
  }

  // An optional plus sign, zeros, and the decimal form.
  ghost predicate SpellsDecimal(s: string, n: nat) {
    exists plus: bool, k: nat :: s == Signed(plus, Zeros(k) + Decimal(n))
  }

  lemma DecimalCodec(s: string, n: nat)
    ensures ParseU64(s) == Some(n)
      <==> n <= U64_MAX && SpellsDecimal(s, n)
  {
    if ParseU64(s) == Some(n) {
      var plus := s[0] == '+';
      var digits := if plus then s[1..] else s;
      var k := DigitsAreDecimal(digits);
      assert s == Signed(plus, Zeros(k) + Decimal(n));
    }
    if n <= U64_MAX && SpellsDecimal(s, n) {
      var plus: bool, k: nat :| s == Signed(plus, Zeros(k) + Decimal(n));
      var digits := Zeros(k) + Decimal(n);
      ZerosAre(k);
      DecimalValue(Zeros(k), n);
      DigitsOnly(digits);
      assert digits[0] in digits;
      if plus {
        assert s[1..] == digits;
      }
    }
  }

  lemma {:induction false} DigitsOnly(s: string)
    requires DigitsValue(s).Some?
    ensures forall c :: c in s ==> IsDigit(c)
  {
    if s != "" {
      DigitsOnly(s[..|s| - 1]);
      assert s == s[..|s| - 1] + [s[|s| - 1]];
    }
  }

  // -------------------------------------------------------------------- text

  // The characters that Unicode calls white space.
  predicate IsWhitespace(c: char) {
    || '\t' <= c <= '\r' || c == ' ' || c == '\U{85}' || c == '\U{A0}' || c == '\U{1680}'
    || '\U{2000}' <= c <= '\U{200A}' || c == '\U{2028}' || c == '\U{2029}' || c == '\U{202F}'
    || c == '\U{205F}' || c == '\U{3000}'
  }

  function Trim(s: string): string {
    if s == "" then ""
    else if IsWhitespace(s[0]) then Trim(s[1..])
    else if IsWhitespace(s[|s| - 1]) then Trim(s[..|s| - 1])
    else s
  }

  lemma {:induction false} TrimShorter(s: string)
    ensures |Trim(s)| <= |s|
    decreases |s|
  {
    if s != "" {
      TrimShorter(s[1..]);
      TrimShorter(s[..|s| - 1]);
    }
  }

  // What `name: ` introduces, when it is not blank at either end.
  function ExactField(line: string, name: string): Option<string> {
    if !(name <= line) then None
    else
      var value := line[|name|..];
      if value == "" || value[0] != ' ' then None
      else if value[1..] == "" || Trim(value[1..]) != value[1..] then None
      else Some(value[1..])
  }

  predicate Tight(value: string) {
    value != "" && !IsWhitespace(value[0]) && !IsWhitespace(value[|value| - 1])
  }

  lemma FieldCodec(line: string, name: string, value: string)
    ensures ExactField(line, name) == Some(value) <==> line == name + " " + value && Tight(value)
  {
    hide IsWhitespace;
    if value != "" {
      TrimShorter(value[1..]);
      TrimShorter(value[..|value| - 1]);
    }
    if line == name + " " + value {
      assert line[|name|..] == " " + value;
    }
    if name <= line {
      assert line == name + line[|name|..];
      var rest := line[|name|..];
      if rest != "" {
        assert rest == [rest[0]] + rest[1..];
      }
    }
  }

  const LABELS: seq<string> := ["Algorithm:", "Key-ID:", "Archive-Length:", "Archive-BLAKE3:", "Signature:"]

  // The six lines around five field values.
  function Lines(values: seq<string>): (lines: seq<string>)
    requires |values| == 5
    ensures |lines| == 6
  {
    [SIGNATURE_HEADER,
     LABELS[0] + " " + values[0],
     LABELS[1] + " " + values[1],
     LABELS[2] + " " + values[2],
     LABELS[3] + " " + values[3],
     LABELS[4] + " " + values[4]]
  }

  function PlainValues(r: SignatureRecord): (values: seq<string>)
    ensures |values| == 5
  {
    [ALGORITHM, HexEncode(r.keyId), Decimal(r.archiveLen), HexEncode(r.archiveHash), HexEncode(r.signature)]
  }

  function PrintSignature(r: SignatureRecord): string {
    Join(Lines(PlainValues(r)), '\n') + "\n"
  }

  function ParseSignature(text: string): Option<SignatureRecord> {
    var body := if text != "" && text[|text| - 1] == '\n' then text[..|text| - 1] else text;
    var lines := Split(body, '\n');
    if '\r' in body || |lines| != 6 || lines[0] != SIGNATURE_HEADER then None
    else
      var algorithm :- ExactField(lines[1], LABELS[0]);
      if algorithm != ALGORITHM then None
      else
        var keyText :- ExactField(lines[2], LABELS[1]);
        var keyId :- HexDecode(KEY_ID_SIZE, keyText);
        var lengthText :- ExactField(lines[3], LABELS[2]);
        var archiveLen :- ParseU64(lengthText);
        var hashText :- ExactField(lines[4], LABELS[3]);
        var archiveHash :- HexDecode(HASH_SIZE, hashText);
        var signatureText :- ExactField(lines[5], LABELS[4]);
        var signature :- HexDecode(SIGNATURE_SIZE, signatureText);
        Some(SignatureRecord(keyId, archiveLen, archiveHash, signature))
  }

  // The spellings of a record: hexadecimal in either case, the length with a
  // plus sign or leading zeros, and a final newline or none.
  ghost predicate Spells(values: seq<string>, r: SignatureRecord)
    requires |values| == 5
  {
    && values[0] == ALGORITHM
    && Lower(values[1]) == HexEncode(r.keyId)
    && SpellsDecimal(values[2], r.archiveLen)
    && Lower(values[3]) == HexEncode(r.archiveHash)
    && Lower(values[4]) == HexEncode(r.signature)
  }

  ghost predicate SpelledAs(text: string, values: seq<string>, r: SignatureRecord) {
    && |values| == 5 && Spells(values, r)
    && (text == Join(Lines(values), '\n') || text == Join(Lines(values), '\n') + "\n")
  }

  // Letters, digits and signs: nothing that a line or a field could lose.
  predicate Graphic(s: string) {
    forall c :: c in s ==> '!' <= c <= '~'
  }

  predicate Printable(s: string) {
    forall c :: c in s ==> ' ' <= c <= '~'
  }

  lemma {:induction false} HexGraphic(s: string, b: seq<byte>)
    requires Lower(s) == HexEncode(b)
    ensures |s| == 2 * |b| && Graphic(s)
  {
    assert |s| == 2 * |b|;
    if b != [] {
      hide Lower, HexEncode, LowerDigit, HexDigit;
      var n, last := |s| - 2, b[|b| - 1] as int;
      LowerPair(s, b);
      HexGraphic(s[..n], b[..|b| - 1]);
      DigitGraphic(s[n], last / 16);
      DigitGraphic(s[n + 1], last % 16);
      LastTwo(s);
    }
  }

  lemma DigitGraphic(c: char, n: int)
    requires 0 <= n < 16 && LowerDigit(c) == HexDigit(n)
    ensures '!' <= c <= '~'
  {
  }

  lemma DecimalGraphic(s: string, n: nat)
    requires n <= U64_MAX && SpellsDecimal(s, n)
    ensures s != "" && Graphic(s)
  {
    DecimalCodec(s, n);
    var digits := if s[0] == '+' then s[1..] else s;
    DigitsOnly(digits);
    assert s == [s[0]] + s[1..];
  }

  lemma ValuesGraphic(values: seq<string>, r: SignatureRecord)
    requires r.Fits() && |values| == 5 && Spells(values, r)
    ensures forall i :: 0 <= i < 5 ==> Graphic(values[i]) && Tight(values[i])
  {
    HexGraphic(values[1], r.keyId);
    HexGraphic(values[3], r.archiveHash);
    HexGraphic(values[4], r.signature);
    DecimalGraphic(values[2], r.archiveLen);
    assert Graphic(values[0]);
    forall i | 0 <= i < 5
      ensures Graphic(values[i]) && Tight(values[i])
    {
      assert values[i][0] in values[i] && values[i][|values[i]| - 1] in values[i];
    }
  }

  lemma LinePrintable(name: string, value: string)
    requires name in LABELS && Graphic(value)
    ensures Printable(name + " " + value)
  {
  }

  lemma LinesPrintable(values: seq<string>)
    requires |values| == 5 && forall i :: 0 <= i < 5 ==> Graphic(values[i])
    ensures forall i :: 0 <= i < 6 ==> Printable(Lines(values)[i])
  {
    var lines := Lines(values);
    assert Printable(SIGNATURE_HEADER);
    forall i | 1 <= i < 6
      ensures Printable(lines[i])
    {
      LinePrintable(LABELS[i - 1], values[i - 1]);
    }
  }

  lemma {:induction false} JoinedChars(lines: seq<string>)
    requires |lines| >= 1 && forall i :: 0 <= i < |lines| ==> Printable(lines[i])
    ensures forall c :: c in Join(lines, '\n') ==> c == '\n' || ' ' <= c <= '~'
  {
    if |lines| > 1 {
      JoinedChars(lines[1..]);
    }
  }

  lemma {:induction false} JoinedEnd(lines: seq<string>)
    requires |lines| >= 1 && lines[|lines| - 1] != ""
    ensures var text, last := Join(lines, '\n'), lines[|lines| - 1];
      text != "" && text[|text| - 1] == last[|last| - 1]
  {
    if |lines| > 1 {
      JoinedEnd(lines[1..]);
    }
  }

  // A text is accepted as r exactly when it is the six lines in order, with
  // the fields of r in one of their spellings.
  lemma SignatureCodec(text: string, r: SignatureRecord)
    ensures ParseSignature(text) == Some(r) <==> r.Fits() && exists values :: SpelledAs(text, values, r)
  {
    if ParseSignature(text) == Some(r) {
      var values := ParsedSpelling(text, r);
    }
    if r.Fits() && exists values :: SpelledAs(text, values, r) {
      var values :| SpelledAs(text, values, r);
      SpellingParsed(text, values, r);
    }
  }

  lemma ParsedSpelling(text: string, r: SignatureRecord) returns (values: seq<string>)
    requires ParseSignature(text) == Some(r)
    ensures r.Fits() && SpelledAs(text, values, r)
  {
    hide Split, Join, ExactField, HexPairs, ParseU64;
    var body := if text != "" && text[|text| - 1] == '\n' then text[..|text| - 1] else text;
    var lines := Split(body, '\n');
    values := seq(5, i requires 0 <= i < 5 => ExactField(lines[i + 1], LABELS[i]).value);
    forall i | 0 <= i < 5
      ensures lines[i + 1] == LABELS[i] + " " + values[i]
    {
      FieldCodec(lines[i + 1], LABELS[i], values[i]);
    }
    assert lines == Lines(values);
    JoinSplit(body, '\n');
    assert text == body || text == body + "\n";
    PairsLength(values[1]);
    PairsLength(values[3]);
    PairsLength(values[4]);
    HexCodec(values[1], r.keyId);
    HexCodec(values[3], r.archiveHash);
    HexCodec(values[4], r.signature);
    DecimalCodec(values[2], r.archiveLen);
  }

  lemma {:induction false} PairsLength(s: string)
    requires |s| % 2 == 0 && HexPairs(s).Some?
    ensures |s| == 2 * |HexPairs(s).value|
  {
    hide DecodeNibble;
    if s != "" {
      PairsLength(s[..|s| - 2]);
    }
  }

  lemma SpellingParsed(text: string, values: seq<string>, r: SignatureRecord)
    requires r.Fits() && SpelledAs(text, values, r)
    ensures ParseSignature(text) == Some(r)
  {
    hide Split, Join, ExactField, HexPairs, ParseU64, Graphic, Tight, IsWhitespace;
    var lines := Lines(values);
    var body := Join(lines, '\n');
    ValuesGraphic(values, r);
    LinesPrintable(values);
    JoinedChars(lines);
    BodyOf(text, values);
    SplitJoin(lines, '\n');
    FieldCodec(lines[1], LABELS[0], values[0]);
    FieldCodec(lines[2], LABELS[1], values[1]);
    FieldCodec(lines[3], LABELS[2], values[2]);
    FieldCodec(lines[4], LABELS[3], values[3]);
    FieldCodec(lines[5], LABELS[4], values[4]);
    HexGraphic(values[1], r.keyId);
    HexGraphic(values[3], r.archiveHash);
    HexGraphic(values[4], r.signature);
    HexCodec(values[1], r.keyId);
    HexCodec(values[3], r.archiveHash);
    HexCodec(values[4], r.signature);
    DecimalCodec(values[2], r.archiveLen);
  }

  // Only the optional newline is stripped: the last line never ends in one.
  lemma BodyOf(text: string, values: seq<string>)
    requires |values| == 5 && forall i :: 0 <= i < 5 ==> Graphic(values[i]) && Tight(values[i])
    requires var body := Join(Lines(values), '\n'); text == body || text == body + "\n"
    ensures text != ""
    ensures (if text[|text| - 1] == '\n' then text[..|text| - 1] else text) == Join(Lines(values), '\n')
  {
    hide Join;
    var lines := Lines(values);
    JoinedEnd(lines);
    var last := lines[5];
    assert last[|last| - 1] == values[4][|values[4]| - 1];
    assert values[4][|values[4]| - 1] in values[4];
  }

  lemma PlainSpells(r: SignatureRecord)
    ensures Spells(PlainValues(r), r)
    ensures Spells(PlainValues(r)[2 := "+" + Decimal(r.archiveLen)], r)
  {
    EncodedIsLower(r.keyId);
    EncodedIsLower(r.archiveHash);
    EncodedIsLower(r.signature);
    DecimalSpells(r.archiveLen);
    hide HexEncode, Lower, Decimal, SpellsDecimal;
  }

  lemma DecimalSpells(n: nat)
    ensures SpellsDecimal(Decimal(n), n) && SpellsDecimal("+" + Decimal(n), n)
  {
    hide Decimal;
    assert Zeros(0) + Decimal(n) == Decimal(n);
    assert Decimal(n) == Signed(false, Zeros(0) + Decimal(n));
    assert "+" + Decimal(n) == Signed(true, Zeros(0) + Decimal(n));
  }

  lemma SignatureRoundTrip(r: SignatureRecord)
    requires r.Fits()
    ensures ParseSignature(PrintSignature(r)) == Some(r)
  {
    hide Join, Split;
    PlainSpells(r);
    SpellingParsed(PrintSignature(r), PlainValues(r), r);
  }

  // The parser is meant to take canonical text only, but it takes more: a plus
  // sign before the length gives another text with the same reading.
  lemma AnotherSpelling(r: SignatureRecord)
    requires r.Fits()
    ensures var text := Join(Lines(PlainValues(r)[2 := "+" + Decimal(r.archiveLen)]), '\n') + "\n";
      ParseSignature(text) == Some(r) && text != PrintSignature(r)
  {
    hide Join, Split, ParseSignature;
    var values := PlainValues(r)[2 := "+" + Decimal(r.archiveLen)];
    var text := Join(Lines(values), '\n') + "\n";
    PlainSpells(r);
    SpellingParsed(text, values, r);
    if text == PrintSignature(r) {
      SameText(text, values, r);
    }
  }

  predicate CanonicalNumber(s: string) {
    s == "0" || (s != "" && '1' <= s[0] <= '9')
  }

  // Accepted text is what signing prints exactly when it ends in a newline,
  // its hexadecimal fields have no capitals, and its length has neither a sign
  // nor leading zeros.
  lemma CanonicalSpelling(text: string, values: seq<string>, r: SignatureRecord)
    requires r.Fits() && SpelledAs(text, values, r)
    ensures text != ""
    ensures text == PrintSignature(r) <==>
      && text[|text| - 1] == '\n'
      && (forall i :: i in {1, 3, 4} ==> Lower(values[i]) == values[i])
      && CanonicalNumber(values[2])
  {
    hide Join, Split, ParseSignature, Tight, Graphic;
    ValuesGraphic(values, r);
    BodyOf(text, values);
    PlainSpells(r);
    DecimalLeads(r.archiveLen);
    if text == PrintSignature(r) {
      SameText(text, values, r);
    }
    if Lower(values[1]) == values[1] && Lower(values[3]) == values[3] && Lower(values[4]) == values[4]
      && CanonicalNumber(values[2]) {
      var plus: bool, k: nat :| values[2] == Signed(plus, Zeros(k) + Decimal(r.archiveLen));
      ZerosAre(k);
      assert values[2] == Decimal(r.archiveLen);
      assert values == PlainValues(r);
    }
  }

  lemma {:induction false} DecimalLeads(n: nat)
    ensures CanonicalNumber(Decimal(n))
    ensures n > 0 ==> '1' <= Decimal(n)[0] <= '9'
  {
    if n >= 10 {
      DecimalLeads(n / 10);
    }
  }

  // Only the plain values print as the printed text.
  lemma SameText(text: string, values: seq<string>, r: SignatureRecord)
    requires r.Fits() && SpelledAs(text, values, r) && text == PrintSignature(r)
    ensures values == PlainValues(r) && text[|text| - 1] == '\n'
  {
    hide Join, Split, Tight, Graphic, Spells;
    PlainSpells(r);
    ValuesGraphic(values, r);
    ValuesGraphic(PlainValues(r), r);
    BodyOf(text, values);
    BodyOf(text, PlainValues(r));
    LinesApart(values, r);
    LinesApart(PlainValues(r), r);
    LinesInjective(values, PlainValues(r));
  }

  lemma LinesInjective(a: seq<string>, b: seq<string>)
    requires |a| == 5 && |b| == 5 && Lines(a) == Lines(b)
    ensures a == b
  {
    forall i | 0 <= i < 5
      ensures a[i] == b[i]
    {
      assert Lines(a)[i + 1][|LABELS[i]| + 1..] == a[i];
      assert Lines(b)[i + 1][|LABELS[i]| + 1..] == b[i];
    }
  }

  lemma LinesApart(values: seq<string>, r: SignatureRecord)
    requires r.Fits() && |values| == 5 && Spells(values, r)
    ensures Split(Join(Lines(values), '\n'), '\n') == Lines(values)
  {
    ValuesGraphic(values, r);
    LinesPrintable(values);
    SplitJoin(Lines(values), '\n');
  }

  lemma {:induction false} EncodedIsLower(b: seq<byte>)
    ensures Lower(HexEncode(b)) == HexEncode(b)
  {
    if b != [] {
      var s := HexEncode(b);
      var n := |s| - 2;
      EncodedIsLower(b[..|b| - 1]);
      LowerTwo(s);
      assert s[..n] == HexEncode(b[..|b| - 1]);
    }
  }

  // ---------------------------------------------------- signing and checking

  // "RGX-ARCHIVE-SIGNATURE-1"
  const SIGNATURE_CONTEXT: seq<byte> := [
    0x52, 0x47, 0x58, 0x2D, 0x41, 0x52, 0x43, 0x48, 0x49, 0x56, 0x45, 0x2D,
    0x53, 0x49, 0x47, 0x4E, 0x41, 0x54, 0x55, 0x52, 0x45, 0x2D, 0x31]

  datatype SigningKey = SigningKey(keyId: seq<byte>, sign: seq<byte> -> seq<byte>)

  datatype PublicKey = PublicKey(keyId: seq<byte>, verify: (seq<byte>, seq<byte>) -> bool)

  // A key pair: the public half accepts what the private half signs.
  ghost predicate Pair(key: SigningKey, public: PublicKey) {
    && key.keyId == public.keyId && |key.keyId| == KEY_ID_SIZE
    && forall m :: |key.sign(m)| == SIGNATURE_SIZE && public.verify(m, key.sign(m))
  }

  function SignatureMessage(archiveLen: nat, archiveHash: Digest): seq<byte> {
    SIGNATURE_CONTEXT + ToLE(archiveLen, 8) + archiveHash
  }

  // Distinct lengths or digests are signed as distinct messages.
  lemma MessageInjective(n: nat, h: Digest, n': nat, h': Digest)
    requires n <= U64_MAX && n' <= U64_MAX
    requires SignatureMessage(n, h) == SignatureMessage(n', h')
    ensures n == n' && h == h'
  {
    hide ToLE;
    var size := |SIGNATURE_CONTEXT|;
    assert SignatureMessage(n, h)[size..size + 8] == ToLE(n, 8);
    assert SignatureMessage(n', h')[size..size + 8] == ToLE(n', 8);
    assert SignatureMessage(n, h)[size + 8..] == h;
    assert SignatureMessage(n', h')[size + 8..] == h';
    LE64(n);
    LE64(n');
  }

  // Reads the archive to its end in whatever pieces reading returns.
  method HashArchive(hash: seq<byte> -> Digest, pieces: seq<seq<byte>>) returns (r: Result<(nat, Digest)>)
    ensures r.Ok? <==> |Flatten(pieces)| <= U64_MAX
    ensures r.Ok? ==> r.value == (|Flatten(pieces)|, hash(Flatten(pieces)))
  {
    var hashed: seq<byte> := [];
    var total := 0;
    var i := 0;
    while i < |pieces|
      invariant i <= |pieces| && hashed == Flatten(pieces[..i]) && total == |hashed| <= U64_MAX
    {
      TakeOneMore(pieces, i);
      FlattenSnoc(pieces[..i], pieces[i]);
      hashed := hashed + pieces[i];
      var sum := CheckedAdd(total, |pieces[i]|);
      if sum.None? {
        FlattenAppend(pieces[..i + 1], pieces[i + 1..]);
        TakeDrop(pieces, i + 1);
        return Err(Overflow);
      }
      total := sum.value;
      i := i + 1;
    }
    assert pieces[..i] == pieces;
    r := Ok((total, hash(hashed)));
  }

  function SignedRecord(key: SigningKey, hash: seq<byte> -> Digest, archive: seq<byte>): SignatureRecord {
    SignatureRecord(key.keyId, |archive|, hash(archive), key.sign(SignatureMessage(|archive|, hash(archive))))
  }

  method SignArchive(key: SigningKey, hash: seq<byte> -> Digest, pieces: seq<seq<byte>>) returns (r: Result<string>)
    ensures r.Ok? <==> |Flatten(pieces)| <= U64_MAX
    ensures r.Ok? ==> r.value == PrintSignature(SignedRecord(key, hash, Flatten(pieces)))
  {
    var hashed := HashArchive(hash, pieces);
    if hashed.Err? {
      return Err(hashed.error);
    }
    var (archiveLen, archiveHash) := hashed.value;
    var signature := key.sign(SignatureMessage(archiveLen, archiveHash));
    r := Ok(PrintSignature(SignatureRecord(key.keyId, archiveLen, archiveHash, signature)));
  }

  predicate Vouches(public: PublicKey, hash: seq<byte> -> Digest, archive: seq<byte>, text: string) {
    var parsed := ParseSignature(text);
    && parsed.Some?
    && parsed.value.keyId == public.keyId
    && parsed.value.archiveLen == |archive| <= U64_MAX && parsed.value.archiveHash == hash(archive)
    && public.verify(SignatureMessage(|archive|, hash(archive)), parsed.value.signature)
  }

  method VerifyArchiveSignature(public: PublicKey, hash: seq<byte> -> Digest, pieces: seq<seq<byte>>, text: string)
    returns (r: Result<(nat, Digest)>)
    ensures r.Ok? <==> Vouches(public, hash, Flatten(pieces), text)
    ensures var archive := Flatten(pieces);
      r.Ok? <==> exists record: SignatureRecord, values ::
        && record.Fits() && SpelledAs(text, values, record)
        && record.keyId == public.keyId
        && record.archiveLen == |archive|
        && record.archiveHash == hash(archive)
        && public.verify(SIGNATURE_CONTEXT + ToLE(|archive|, 8) + hash(archive), record.signature)
    ensures r.Ok? ==> r.value == (|Flatten(pieces)|, hash(Flatten(pieces)))
  {
    hide ParseSignature, Flatten;
    VouchedText(public, hash, Flatten(pieces), text);
    var parsed := ParseSignature(text);
    if parsed.None? {
      return Err(BadHeader);
    }
    if public.keyId != parsed.value.keyId {
      return Err(Authentication);
    }
    var hashed := HashArchive(hash, pieces);
    if hashed.Err? {
      return Err(hashed.error);
    }
    var (archiveLen, archiveHash) := hashed.value;
    if archiveLen != parsed.value.archiveLen || archiveHash != parsed.value.archiveHash {
      return Err(Corrupt);
    }
    if !public.verify(SignatureMessage(archiveLen, archiveHash), parsed.value.signature) {
      return Err(Authentication);
    }
    r := Ok((archiveLen, archiveHash));
  }

  // A text vouches for an archive exactly when it spells a record that names
  // the key, has the length and digest of the archive, and carries a signature
  // that the key accepts over the context, the length and the digest.
  lemma VouchedText(public: PublicKey, hash: seq<byte> -> Digest, archive: seq<byte>, text: string)
    ensures Vouches(public, hash, archive, text) <==> exists record: SignatureRecord, values ::
      && record.Fits() && SpelledAs(text, values, record)
      && record.keyId == public.keyId
      && record.archiveLen == |archive|
      && record.archiveHash == hash(archive)
      && public.verify(SIGNATURE_CONTEXT + ToLE(|archive|, 8) + hash(archive), record.signature)
  {
    hide ParseSignature, SpelledAs, ToLE;
    if Vouches(public, hash, archive, text) {
      SignatureCodec(text, ParseSignature(text).value);
    }
    forall record: SignatureRecord, values | record.Fits() && SpelledAs(text, values, record)
      ensures ParseSignature(text) == Some(record)
    {
      SignatureCodec(text, record);
    }
  }

  // With its signature replaced by one the key refuses, a signed text vouches
  // for nothing.
  lemma ForgedIsRefused(public: PublicKey, hash: seq<byte> -> Digest, r: SignatureRecord, text: string,
                        values: seq<string>, archive: seq<byte>)
    requires r.Fits() && SpelledAs(text, values, r)
    requires !public.verify(SIGNATURE_CONTEXT + ToLE(r.archiveLen, 8) + r.archiveHash, r.signature)
    ensures !Vouches(public, hash, archive, text)
  {
    hide ParseSignature, SpelledAs, ToLE;
    SignatureCodec(text, r);
  }

  // In particular the printed text with its last line exchanged.
  lemma LastLineExchanged(key: SigningKey, public: PublicKey, hash: seq<byte> -> Digest, signed: seq<byte>,
                          other: seq<byte>, archive: seq<byte>)
    requires Pair(key, public) && |signed| <= U64_MAX && |other| == SIGNATURE_SIZE
    requires !public.verify(SIGNATURE_CONTEXT + ToLE(|signed|, 8) + hash(signed), other)
    ensures var values := PlainValues(SignedRecord(key, hash, signed))[4 := HexEncode(other)];
      !Vouches(public, hash, archive, Join(Lines(values), '\n') + "\n")
  {
    hide Join, Lines, ParseSignature, HexEncode, Decimal, ToLE;
    var r := SignedRecord(key, hash, signed).(signature := other);
    PlainSpells(r);
    assert PlainValues(SignedRecord(key, hash, signed))[4 := HexEncode(other)] == PlainValues(r);
    ForgedIsRefused(public, hash, r, Join(Lines(PlainValues(r)), '\n') + "\n", PlainValues(r), archive);
  }

  // What a key signs its public half vouches for; and a text vouches for no
  // archive of another length or digest.
  lemma SignedIsVouched(key: SigningKey, public: PublicKey, hash: seq<byte> -> Digest, archive: seq<byte>,
                        other: seq<byte>)
    requires Pair(key, public) && |archive| <= U64_MAX
    ensures var text := PrintSignature(SignedRecord(key, hash, archive));
      && Vouches(public, hash, archive, text)
      && (Vouches(public, hash, other, text) <==> |other| == |archive| && hash(other) == hash(archive))
  {
    hide ParseSignature, PrintSignature;
    SignatureRoundTrip(SignedRecord(key, hash, archive));
  }
}
