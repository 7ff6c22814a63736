/** The text form of the persisted record set: what `saveToStorage` writes with
    `JSON.stringify(prompts)` and `loadPrompts` reads back with `JSON.parse`.

    The format is the compact JSON of an array of records with every field written out
    in a fixed order, e.g.
      [{"id":"1","text":"a \"b\"","image":"u","createdAt":12,"updatedAt":null,"isStatic":false}]
    Strings escape only `"` and `\`; a missing timestamp is `null`.

    Encoders take the text that follows (`k`) so that every piece is a prefix of the rest
    of the output, which keeps the round-trip proofs free of re-association steps. */
module Codec {
  import opened Records

  // ----- decimal integers -----

  predicate IsDigit(c: char) {
    '0' <= c <= '9'
  }

  function DigitChar(d: nat): char
    requires d < 10
  {
    (d + '0' as int) as char
  }

  function DigitValue(c: char): nat
    requires IsDigit(c)
  {
    c as int - '0' as int
  }

  /** Decimal digits of `n`, most significant first, without leading zeros. */
  function NatToDigits(n: nat): (s: string)
    ensures |s| > 0
    ensures forall i :: 0 <= i < |s| ==> IsDigit(s[i])
  {
    if n < 10 then [DigitChar(n)] else NatToDigits(n / 10) + [DigitChar(n % 10)]
  }

  /** The number a run of decimal digits denotes. */
  function DigitsToNat(s: string): nat
    requires forall i :: 0 <= i < |s| ==> IsDigit(s[i])
  {
    if s == [] then 0 else 10 * DigitsToNat(s[..|s| - 1]) + DigitValue(s[|s| - 1])
  }

  /** Reading back the digits of `n` gives `n`. */
  lemma {:induction false} DigitsRoundTrip(n: nat)
    ensures DigitsToNat(NatToDigits(n)) == n
    decreases n
  {
    if n >= 10 {
      var s := NatToDigits(n);
      assert s[..|s| - 1] == NatToDigits(n / 10);
      DigitsRoundTrip(n / 10);
    }
  }

  /** The length of the run of digits at the start of `s`. */
  function DigitRun(s: string): (k: nat)
    ensures k <= |s|
    ensures forall i :: 0 <= i < k ==> IsDigit(s[i])
    ensures k < |s| ==> !IsDigit(s[k])
  {
    if s != [] && IsDigit(s[0]) then 1 + DigitRun(s[1..]) else 0
  }

  /** A run of digits followed by a non-digit is read exactly up to its end. */
  lemma {:induction false} DigitRunOf(d: string, rest: string)
    requires forall i :: 0 <= i < |d| ==> IsDigit(d[i])
    requires rest == [] || !IsDigit(rest[0])
    ensures DigitRun(d + rest) == |d|
    decreases |d|
  {
    if d == [] {
      assert d + rest == rest;
    } else {
      assert (d + rest)[0] == d[0];
      assert (d + rest)[1..] == d[1..] + rest;
      DigitRunOf(d[1..], rest);
    }
  }

  /** A JavaScript integer as JSON writes it. */
  function IntText(i: int): string {
    if i < 0 then "-" + NatToDigits(-i) else NatToDigits(i)
  }

  /** Digits as JSON writes a number: at least one, and no leading zero unless it is the
      only digit. */
  predicate Canonical(d: string) {
    |d| > 0 && (forall i :: 0 <= i < |d| ==> IsDigit(d[i])) && (|d| > 1 ==> d[0] != '0')
  }

  /** Read a run of canonical decimal digits; the text after it is returned too. */
  function ParseNat(s: string): (r: Option<(nat, string)>)
    ensures r.Some? ==> |r.value.1| < |s|
  {
    var k := DigitRun(s);
    if k == 0 || (k > 1 && s[0] == '0') then None else Some((DigitsToNat(s[..k]), s[k..]))
  }

  /** Read an optionally negative decimal integer; the text after it is returned too. A minus
      sign before zero is refused, as `IntText` never writes it. */
  function ParseInt(s: string): (r: Option<(int, string)>)
    ensures r.Some? ==> |r.value.1| < |s|
  {
    if |s| > 0 && s[0] == '-' then
      var p :- ParseNat(s[1..]);
      if p.0 == 0 then None else Some((-(p.0 as int), p.1))
    else
      var p :- ParseNat(s);
      Some((p.0 as int, p.1))
  }

  /** The digits of `n` followed by a non-digit are read back as `n` and the text after. */
  lemma DigitsThen(n: nat, k: string)
    requires k == [] || !IsDigit(k[0])
    ensures var s := NatToDigits(n) + k;
      && DigitRun(s) == |NatToDigits(n)|
      && DigitsToNat(s[..DigitRun(s)]) == n
      && s[DigitRun(s)..] == k
  {
    var d := NatToDigits(n);
    DigitRunOf(d, k);
    DigitsRoundTrip(n);
    assert (d + k)[..|d|] == d;
    assert (d + k)[|d|..] == k;
  }

  /** A positive number is written without a leading zero. */
  lemma {:induction false} LeadingDigit(n: nat)
    requires n >= 1
    ensures NatToDigits(n)[0] != '0'
    decreases n
  {
    if n >= 10 {
      LeadingDigit(n / 10);
    }
  }

  /** The digits of every number are canonical. */
  lemma DigitsCanonical(n: nat)
    ensures Canonical(NatToDigits(n))
  {
    if n >= 10 {
      LeadingDigit(n);
    }
  }

  /** A natural number followed by a non-digit reads back as itself and the text after. */
  lemma NatRoundTrip(n: nat, k: string)
    requires k == [] || !IsDigit(k[0])
    ensures ParseNat(NatToDigits(n) + k) == Some((n, k))
  {
    var d := NatToDigits(n);
    DigitsThen(n, k);
    DigitsCanonical(n);
    assert (d + k)[0] == d[0];
  }

  /** An unsigned number is read as itself. */
  lemma ParseUnsigned(u: string, n: nat, k: string)
    requires ParseNat(u) == Some((n, k))
    ensures ParseInt(u) == Some((n as int, k))
  {
    assert IsDigit(u[0]);
  }

  /** A minus sign before a positive number is read as its negation. */
  lemma ParseSigned(u: string, n: nat, k: string)
    requires ParseNat(u) == Some((n, k)) && n >= 1
    ensures ParseInt("-" + u) == Some((-(n as int), k))
  {
    assert ("-" + u)[1..] == u;
  }

  lemma IntRoundTrip(i: int, k: string)
    requires k == [] || !IsDigit(k[0])
    ensures ParseInt(IntText(i) + k) == Some((i, k))
  {
    if i < 0 {
      var d := NatToDigits(-i);
      assert IntText(i) + k == "-" + (d + k);
      NatRoundTrip(-i, k);
      ParseSigned(d + k, -i, k);
    } else {
      NatRoundTrip(i, k);
      ParseUnsigned(NatToDigits(i) + k, i, k);
    }
  }

  /** Canonical digits are the digits of the number they denote. */
  lemma {:induction false} CanonicalDigits(d: string)
    requires Canonical(d)
    ensures NatToDigits(DigitsToNat(d)) == d
    decreases |d|
  {
    if |d| > 1 {
      var init := d[..|d| - 1];
      assert Canonical(init);
      CanonicalDigits(init);
      DigitsPositive(init);
      var n := DigitsToNat(d);
      assert n / 10 == DigitsToNat(init) && n % 10 == DigitValue(d[|d| - 1]);
      assert d == init + [d[|d| - 1]];
    }
  }

  /** Digits without a leading zero denote a positive number. */
  lemma {:induction false} DigitsPositive(d: string)
    requires Canonical(d) && d[0] != '0'
    ensures DigitsToNat(d) >= 1
    decreases |d|
  {
    if |d| > 1 {
      DigitsPositive(d[..|d| - 1]);
    }
  }

  /** Whatever ParseNat accepts is a number's digits followed by a non-digit. */
  lemma NatInverse(s: string, n: nat, k: string)
    requires ParseNat(s) == Some((n, k))
    ensures s == NatToDigits(n) + k
    ensures k == [] || !IsDigit(k[0])
  {
    var j := DigitRun(s);
    var d := s[..j];
    assert Canonical(d);
    CanonicalDigits(d);
    assert s == d + s[j..];
  }

  /** Whatever ParseInt accepts is an integer as IntText writes it, followed by a non-digit. */
  lemma IntInverse(s: string, i: int, k: string)
    requires ParseInt(s) == Some((i, k))
    ensures s == IntText(i) + k
    ensures k == [] || !IsDigit(k[0])
  {
    if |s| > 0 && s[0] == '-' {
      var p := ParseNat(s[1..]).value;
      assert p.0 >= 1 && i == -(p.0 as int) && k == p.1;
      SignedInverse(s, p.0, k);
    } else {
      var p := ParseNat(s).value;
      assert i == p.0 && k == p.1;
      NatInverse(s, p.0, k);
    }
  }

  /** A minus sign followed by what ParseNat accepts is a negative integer as written. */
  lemma SignedInverse(s: string, n: nat, k: string)
    requires |s| > 0 && s[0] == '-' && ParseNat(s[1..]) == Some((n, k)) && n >= 1
    ensures s == IntText(-(n as int)) + k
    ensures k == [] || !IsDigit(k[0])
  {
    var d := NatToDigits(n);
    assert IntText(-(n as int)) == "-" + d;
    assert ("-" + d) + k == "-" + (d + k);
    NatInverse(s[1..], n, k);
    assert s == "-" + s[1..];
  }

  // ----- literal tokens -----

  /** Consume the literal `lit` at the start of `s`. */
  function Expect(lit: string, s: string): (r: Option<string>)
    ensures r.Some? <==> |lit| <= |s| && s[..|lit|] == lit
    ensures r.Some? ==> s == lit + r.value
  {
    if |lit| <= |s| && s[..|lit|] == lit then Some(s[|lit|..]) else None
  }

  lemma ExpectRoundTrip(lit: string, k: string)
    ensures Expect(lit, lit + k) == Some(k)
  {
    assert (lit + k)[..|lit|] == lit;
    assert (lit + k)[|lit|..] == k;
  }

  // ----- strings -----

  /** The characters of `t` with `"` and `\` escaped, followed by `k`. */
  function Escaped(t: string, k: string): string {
    if t == [] then k
    else if t[0] == '"' || t[0] == '\\' then ['\\', t[0]] + Escaped(t[1..], k)
    else [t[0]] + Escaped(t[1..], k)
  }

  /** `t` as a JSON string literal, followed by `k`. */
  function QuotedThen(t: string, k: string): string {
    "\"" + Escaped(t, "\"" + k)
  }

  /** Read the body of a string literal up to and including its closing quote. */
  function ParseChars(s: string): (r: Option<(string, string)>)
    ensures r.Some? ==> |r.value.1| < |s|
  {
    if s == [] then None
    else if s[0] == '"' then Some(([], s[1..]))
    else if s[0] == '\\' then
      if |s| < 2 || (s[1] != '"' && s[1] != '\\') then None
      else
        var p :- ParseChars(s[2..]);
        Some(([s[1]] + p.0, p.1))
    else
      var p :- ParseChars(s[1..]);
      Some(([s[0]] + p.0, p.1))
  }

  /** Read a string literal. */
  function ParseQuoted(s: string): (r: Option<(string, string)>)
    ensures r.Some? ==> |r.value.1| < |s|
  {
    if |s| > 0 && s[0] == '"' then ParseChars(s[1..]) else None
  }

  lemma {:induction false} EscapedRoundTrip(t: string, k: string)
    ensures ParseChars(Escaped(t, "\"" + k)) == Some((t, k))
    decreases |t|
  {
    if t != [] {
      EscapedRoundTrip(t[1..], k);
      assert t == [t[0]] + t[1..];
    }
  }

  /** Whatever ParseChars accepts is an escaped string and its closing quote. */
  lemma {:induction false} CharsInverse(s: string, t: string, k: string)
    requires ParseChars(s) == Some((t, k))
    ensures s == Escaped(t, "\"" + k)
    decreases |s|
  {
    if s[0] == '"' {
      assert s == "\"" + k;
    } else if s[0] == '\\' {
      var p := ParseChars(s[2..]).value;
      CharsInverse(s[2..], p.0, p.1);
      assert t == [s[1]] + p.0;
      assert s == ['\\', s[1]] + s[2..];
    } else {
      var p := ParseChars(s[1..]).value;
      CharsInverse(s[1..], p.0, p.1);
      assert t == [s[0]] + p.0;
      assert s == [s[0]] + s[1..];
    }
  }

  /** Whatever ParseQuoted accepts is a string literal as QuotedThen writes it. */
  lemma QuotedInverse(s: string, t: string, k: string)
    requires ParseQuoted(s) == Some((t, k))
    ensures s == QuotedThen(t, k)
  {
    CharsInverse(s[1..], t, k);
    assert s == "\"" + s[1..];
  }

  lemma QuotedRoundTrip(t: string, k: string)
    ensures ParseQuoted(QuotedThen(t, k)) == Some((t, k))
  {
    EscapedRoundTrip(t, k);
    assert QuotedThen(t, k)[1..] == Escaped(t, "\"" + k);
  }

  // ----- optional timestamps and booleans -----

  /** A timestamp, or `null` when the record has none, followed by `k`. */
  function OptIntThen(o: Option<int>, k: string): string {
    match o
    case None => "null" + k
    case Some(i) => IntText(i) + k
  }

  function ParseOptInt(s: string): (r: Option<(Option<int>, string)>)
    ensures r.Some? ==> |r.value.1| < |s|
  {
    if |s| > 0 && s[0] == 'n' then
      var k :- Expect("null", s);
      Some((None, k))
    else
      var p :- ParseInt(s);
      Some((Some(p.0), p.1))
  }

  lemma OptIntRoundTrip(o: Option<int>, k: string)
    requires k == [] || !IsDigit(k[0])
    ensures ParseOptInt(OptIntThen(o, k)) == Some((o, k))
  {
    match o
    case None =>
      ExpectRoundTrip("null", k);
    case Some(i) =>
      IntRoundTrip(i, k);
      var d := NatToDigits(if i < 0 then -i else i);
      assert IsDigit(d[0]);
      assert i >= 0 ==> (IntText(i) + k)[0] == d[0];
  }

  function BoolThen(b: bool, k: string): string {
    (if b then "true" else "false") + k
  }

  function ParseBool(s: string): (r: Option<(bool, string)>)
    ensures r.Some? ==> |r.value.1| < |s|
  {
    if |s| > 0 && s[0] == 't' then
      var k :- Expect("true", s);
      Some((true, k))
    else
      var k :- Expect("false", s);
      Some((false, k))
  }

  lemma BoolRoundTrip(b: bool, k: string)
    ensures ParseBool(BoolThen(b, k)) == Some((b, k))
  {
    ExpectRoundTrip(if b then "true" else "false", k);
  }

  /** Whatever ParseOptInt accepts is a timestamp or `null` as OptIntThen writes it. */
  lemma OptIntInverse(s: string, o: Option<int>, k: string)
    requires ParseOptInt(s) == Some((o, k))
    ensures s == OptIntThen(o, k)
  {
    if !(|s| > 0 && s[0] == 'n') {
      var p := ParseInt(s).value;
      IntInverse(s, p.0, p.1);
    }
  }

  /** Whatever ParseBool accepts is a flag as BoolThen writes it. */
  lemma BoolInverse(s: string, b: bool, k: string)
    requires ParseBool(s) == Some((b, k))
    ensures s == BoolThen(b, k)
  {
  }

  // ----- records and the array -----

  /** One record as a JSON object, followed by `k`. */
  function RecordThen(r: Record, k: string): string {
    "{\"id\":" + QuotedThen(r.id,
    ",\"text\":" + QuotedThen(r.text,
    ",\"image\":" + QuotedThen(r.image,
    ",\"createdAt\":" + OptIntThen(r.createdAt,
    ",\"updatedAt\":" + OptIntThen(r.updatedAt,
    ",\"isStatic\":" + BoolThen(r.isStatic, "}" + k))))))
  }

  function ParseRecord(s: string): (r: Option<(Record, string)>)
    ensures r.Some? ==> |r.value.1| < |s|
  {
    var s0 :- Expect("{\"id\":", s);
    var id :- ParseQuoted(s0);
    var s1 :- Expect(",\"text\":", id.1);
    var text :- ParseQuoted(s1);
    var s2 :- Expect(",\"image\":", text.1);
    var image :- ParseQuoted(s2);
    var s3 :- Expect(",\"createdAt\":", image.1);
    var created :- ParseOptInt(s3);
    var s4 :- Expect(",\"updatedAt\":", created.1);
    var updated :- ParseOptInt(s4);
    var s5 :- Expect(",\"isStatic\":", updated.1);
    var isStatic :- ParseBool(s5);
    var rest :- Expect("}", isStatic.1);
    Some((Record(id.0, text.0, image.0, created.0, updated.0, isStatic.0), rest))
  }

  /** Reading a written record gives back that record and the text after it. */
  lemma RecordRoundTrip(r: Record, k: string)
    ensures ParseRecord(RecordThen(r, k)) == Some((r, k))
  {
    var k5 := BoolThen(r.isStatic, "}" + k);
    var k4 := OptIntThen(r.updatedAt, ",\"isStatic\":" + k5);
    var k3 := OptIntThen(r.createdAt, ",\"updatedAt\":" + k4);
    var k2 := QuotedThen(r.image, ",\"createdAt\":" + k3);
    var k1 := QuotedThen(r.text, ",\"image\":" + k2);
    var k0 := QuotedThen(r.id, ",\"text\":" + k1);
    ExpectRoundTrip("{\"id\":", k0);
    QuotedRoundTrip(r.id, ",\"text\":" + k1);
    ExpectRoundTrip(",\"text\":", k1);
    QuotedRoundTrip(r.text, ",\"image\":" + k2);
    ExpectRoundTrip(",\"image\":", k2);
    QuotedRoundTrip(r.image, ",\"createdAt\":" + k3);
    ExpectRoundTrip(",\"createdAt\":", k3);
    OptIntRoundTrip(r.createdAt, ",\"updatedAt\":" + k4);
    ExpectRoundTrip(",\"updatedAt\":", k4);
    OptIntRoundTrip(r.updatedAt, ",\"isStatic\":" + k5);
    ExpectRoundTrip(",\"isStatic\":", k5);
    BoolRoundTrip(r.isStatic, "}" + k);
    ExpectRoundTrip("}", k);
  }

  /** Whatever ParseRecord accepts is a record as RecordThen writes it. */
  lemma RecordInverse(s: string, r: Record, k: string)
    requires ParseRecord(s) == Some((r, k))
    ensures s == RecordThen(r, k)
  {
    var s0 := Expect("{\"id\":", s).value;
    var id := ParseQuoted(s0).value;
    var s1 := Expect(",\"text\":", id.1).value;
    var text := ParseQuoted(s1).value;
    var s2 := Expect(",\"image\":", text.1).value;
    var image := ParseQuoted(s2).value;
    var s3 := Expect(",\"createdAt\":", image.1).value;
    var created := ParseOptInt(s3).value;
    var s4 := Expect(",\"updatedAt\":", created.1).value;
    var updated := ParseOptInt(s4).value;
    var s5 := Expect(",\"isStatic\":", updated.1).value;
    var isStatic := ParseBool(s5).value;
    assert r == Record(id.0, text.0, image.0, created.0, updated.0, isStatic.0);
    assert isStatic.1 == "}" + k;
    BoolInverse(s5, isStatic.0, isStatic.1);
    OptIntInverse(s4, updated.0, updated.1);
    OptIntInverse(s3, created.0, created.1);
    QuotedInverse(s2, image.0, image.1);
    QuotedInverse(s1, text.0, text.1);
    QuotedInverse(s0, id.0, id.1);
  }

  /** The records separated by commas, followed by `k`. */
  function ElementsThen(rs: seq<Record>, k: string): string {
    if rs == [] then k
    else RecordThen(rs[0], if |rs| == 1 then k else "," + ElementsThen(rs[1..], k))
  }

  /** Read one or more comma-separated records and the closing `]`. */
  function ParseElements(s: string): (r: Option<(seq<Record>, string)>)
    ensures r.Some? ==> |r.value.1| < |s|
    decreases |s|
  {
    var p :- ParseRecord(s);
    var t := p.1;
    if |t| > 0 && t[0] == ',' then
      var q :- ParseElements(t[1..]);
      Some(([p.0] + q.0, q.1))
    else if |t| > 0 && t[0] == ']' then
      Some(([p.0], t[1..]))
    else
      None
  }

  /** A record followed by `]` ends the list. */
  lemma ParseElementsLast(s: string, x: Record, k: string)
    requires ParseRecord(s) == Some((x, "]" + k))
    ensures ParseElements(s) == Some(([x], k))
  {
    assert ("]" + k)[1..] == k;
  }

  /** A record followed by a comma continues with the rest of the list. */
  lemma ParseElementsMore(s: string, x: Record, tail: string, rest: seq<Record>, k: string)
    requires ParseRecord(s) == Some((x, "," + tail))
    requires ParseElements(tail) == Some((rest, k))
    ensures ParseElements(s) == Some(([x] + rest, k))
  {
    assert ("," + tail)[1..] == tail;
  }

  /** A one-record list reads back as that record. */
  lemma ElementsOneRoundTrip(x: Record, k: string)
    ensures ParseElements(ElementsThen([x], "]" + k)) == Some(([x], k))
  {
    var s := ElementsThen([x], "]" + k);
    assert s == RecordThen(x, "]" + k);
    RecordRoundTrip(x, "]" + k);
    ParseElementsLast(s, x, k);
  }

  /** A longer list reads back as its first record followed by what the rest reads as. */
  lemma ElementsConsRoundTrip(rs: seq<Record>, k: string)
    requires |rs| > 1
    requires ParseElements(ElementsThen(rs[1..], "]" + k)) == Some((rs[1..], k))
    ensures ParseElements(ElementsThen(rs, "]" + k)) == Some(([rs[0]] + rs[1..], k))
  {
    var s := ElementsThen(rs, "]" + k);
    var tail := ElementsThen(rs[1..], "]" + k);
    assert s == RecordThen(rs[0], "," + tail);
    RecordRoundTrip(rs[0], "," + tail);
    ParseElementsMore(s, rs[0], tail, rs[1..], k);
  }

  lemma {:induction false} ElementsRoundTrip(rs: seq<Record>, k: string)
    requires rs != []
    ensures ParseElements(ElementsThen(rs, "]" + k)) == Some((rs, k))
    decreases |rs|
  {
    if |rs| == 1 {
      assert rs == [rs[0]];
      ElementsOneRoundTrip(rs[0], k);
    } else {
      assert rs == [rs[0]] + rs[1..];
      ElementsRoundTrip(rs[1..], k);
      ElementsConsRoundTrip(rs, k);
    }
  }

  /** `JSON.stringify(prompts)`. */
  function Serialize(rs: seq<Record>): string {
    "[" + ElementsThen(rs, "]")
  }

  /** `JSON.parse(stored)` when it yields an array of records; None otherwise. */
  function Parse(s: string): Option<seq<Record>> {
    var s1 :- Expect("[", s);
    if |s1| > 0 && s1[0] == ']' then
      if s1[1..] == [] then Some([]) else None
    else
      var q :- ParseElements(s1);
      if q.1 == [] then Some(q.0) else None
  }

  /** Reading back what was written gives the same records, field for field. */
  lemma SerializeRoundTrip(rs: seq<Record>)
    ensures Serialize(rs) != []
    ensures Parse(Serialize(rs)) == Some(rs)
  {
    ExpectRoundTrip("[", ElementsThen(rs, "]"));
    if rs != [] {
      ElementsRoundTrip(rs, []);
      assert "]" + [] == "]";
      assert ElementsThen(rs, "]")[0] == '{';
    }
  }

  /** Whatever ParseElements accepts is a non-empty list as ElementsThen writes it, with
      its closing bracket. */
  lemma {:induction false} ElementsInverse(s: string, rs: seq<Record>, k: string)
    requires ParseElements(s) == Some((rs, k))
    ensures rs != [] && s == ElementsThen(rs, "]" + k)
    decreases |s|
  {
    var p := ParseRecord(s).value;
    var t := p.1;
    if |t| > 0 && t[0] == ',' {
      var q := ParseElements(t[1..]).value;
      assert rs == [p.0] + q.0 && k == q.1;
      ElementsInverse(t[1..], q.0, q.1);
      RecordInverse(s, p.0, t);
      ElementsMoreInverse(s, p.0, t, q.0, k);
    } else {
      assert rs == [p.0] && |t| > 0 && t[0] == ']' && k == t[1..];
      RecordInverse(s, p.0, t);
      ElementsLastInverse(s, p.0, t, k);
    }
  }

  /** The step of ElementsInverse for a record followed by the closing bracket. */
  lemma ElementsLastInverse(s: string, x: Record, t: string, k: string)
    requires s == RecordThen(x, t) && |t| > 0 && t[0] == ']' && k == t[1..]
    ensures s == ElementsThen([x], "]" + k)
  {
    SplitFirst(t);
  }

  /** The step of ElementsInverse for a record followed by a comma. */
  lemma ElementsMoreInverse(s: string, x: Record, t: string, rest: seq<Record>, k: string)
    requires s == RecordThen(x, t) && |t| > 0 && t[0] == ','
    requires rest != [] && t[1..] == ElementsThen(rest, "]" + k)
    ensures s == ElementsThen([x] + rest, "]" + k)
  {
    SplitFirst(t);
    ElementsCons(x, rest, "]" + k);
  }

  /** A non-empty text is its first character followed by the rest. */
  lemma SplitFirst(t: string)
    requires |t| > 0
    ensures t == [t[0]] + t[1..]
  {
  }

  /** A list of two or more records is its first record, a comma and the rest. */
  lemma ElementsCons(x: Record, rest: seq<Record>, k: string)
    requires rest != []
    ensures ElementsThen([x] + rest, k) == RecordThen(x, "," + ElementsThen(rest, k))
  {
    var rs := [x] + rest;
    assert rs[0] == x && rs[1..] == rest;
  }

  /** Whatever Parse accepts is exactly what Serialize writes for the records read. */
  lemma ParseInverse(s: string, rs: seq<Record>)
    requires Parse(s) == Some(rs)
    ensures s == Serialize(rs)
  {
    var s1 := Expect("[", s).value;
    if |s1| > 0 && s1[0] == ']' {
      assert s1 == "]";
    } else {
      var q := ParseElements(s1).value;
      ElementsInverse(s1, q.0, q.1);
      assert q.1 == [] && "]" + q.1 == "]";
    }
  }

  /** The stored text and the records read from it determine each other: Parse accepts
      exactly the texts Serialize writes. */
  lemma ParseExact(s: string, rs: seq<Record>)
    ensures Parse(s) == Some(rs) <==> s == Serialize(rs)
  {
    if Parse(s) == Some(rs) {
      ParseInverse(s, rs);
    }
    if s == Serialize(rs) {
      SerializeRoundTrip(rs);
    }
  }
}
