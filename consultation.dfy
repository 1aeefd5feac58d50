/** The consultation booking form: on submit it turns the name, phone and date
    fields into a `mailto:` address with an encoded subject and body. */
module Consultation {
  import opened JsRuntime

  /** The fixed recipient of every booking request, spelled as the site spells it. */
  const Recipient: string := "gtcccybercollege@gmial.com"

  const NameLabel: string := "이름: "
  const PhoneLabel: string := "연락처: "
  const DateLabel: string := "상담 희망일: "
  const SubjectBase: string := "상담 예약 신청"
  const NameSeparator: string := " - "

  // ---------------------------------------------------------------------------
  // Subject and body
  // ---------------------------------------------------------------------------

  /** `String(formData.get(field) || '').trim()`: a missing field reads as empty. */
  function FormField(raw: Option<string>): (r: string)
    ensures r != [] ==> !IsJsSpace(r[0]) && !IsJsSpace(r[|r| - 1])
    ensures raw.None? ==> r == ""
    ensures raw.Some? ==> r == Trim(raw.value)
  {
    Trim(if raw.Some? then raw.value else "")
  }

  /** The position of a detail line's label in the fixed order name, phone,
      date; 3 for a line carrying none of the labels. */
  function LabelRank(line: string): nat {
    if NameLabel <= line then 0
    else if PhoneLabel <= line then 1
    else if DateLabel <= line then 2
    else 3
  }

  /** The detail lines: one per non-empty field, in the order name, phone, date. */
  function Details(name: string, phone: string, date: string): (lines: seq<string>)
    ensures |lines| == (if name != "" then 1 else 0) + (if phone != "" then 1 else 0) + (if date != "" then 1 else 0)
    ensures forall i :: 0 <= i < |lines| ==> LabelRank(lines[i]) < 3 && lines[i] != ""
    ensures forall i, j :: 0 <= i < j < |lines| ==> LabelRank(lines[i]) < LabelRank(lines[j])
  {
    assert LabelRank(NameLabel + name) == 0;
    assert LabelRank(PhoneLabel + phone) == 1 by { assert (PhoneLabel + phone)[0] == PhoneLabel[0]; }
    assert LabelRank(DateLabel + date) == 2 by { assert (DateLabel + date)[0] == DateLabel[0]; }

    (if name != "" then [NameLabel + name] else []) +
    (if phone != "" then [PhoneLabel + phone] else []) +
    (if date != "" then [DateLabel + date] else [])
  }

  /** `lines.join(sep)`. */
  function Join(lines: seq<string>, sep: char): string {
    if |lines| == 0 then ""
    else if |lines| == 1 then lines[0]
    else lines[0] + [sep] + Join(lines[1..], sep)
  }

  /** The subject: the fixed title, followed by `" - " + name` when a name was given. */
  function Subject(name: string): (r: string)
    ensures SubjectBase <= r
    ensures r == SubjectBase <==> name == ""
  {
    SubjectBase + (if name != "" then NameSeparator + name else "")
  }

  /** The body: the detail lines joined by line breaks; empty exactly when
      every field is. */
  function Body(name: string, phone: string, date: string): (r: string)
    ensures r == "" <==> name == "" && phone == "" && date == ""
  {
    var lines := Details(name, phone, date);
    assert lines != [] ==> Join(lines, '\n') != "" by {
      if lines != [] {
        assert |lines[0]| >= 1;
        if |lines| > 1 {
          assert Join(lines, '\n')[0] == lines[0][0];
        }
      }
    }
    Join(lines, '\n')
  }

  // ---------------------------------------------------------------------------
  // encodeURIComponent
  // ---------------------------------------------------------------------------

  /** The characters `encodeURIComponent` leaves as they are. */
  predicate Unreserved(c: char) {
    ('A' <= c <= 'Z') || ('a' <= c <= 'z') || ('0' <= c <= '9') ||
    c == '-' || c == '_' || c == '.' || c == '!' || c == '~' || c == '*' || c == '\'' || c == '(' || c == ')'
  }

  predicate IsByte(b: int) { 0 <= b < 256 }

  /** The UTF-8 encoding of a code point. */
  function Utf8(c: char): (bs: seq<int>)
    ensures 1 <= |bs| <= 4
    ensures forall i :: 0 <= i < |bs| ==> IsByte(bs[i])
  {
    var k := c as int;
    if k < 0x80 then [k]
    else
      var q1, r1 := k / 64, k % 64;
      if k < 0x800 then [0xC0 + q1, 0x80 + r1]
      else
        var q2, r2 := q1 / 64, q1 % 64;
        if k < 0x1_0000 then [0xE0 + q2, 0x80 + r2, 0x80 + r1]
        else
          var q3, r3 := q2 / 64, q2 % 64;
          [0xF0 + q3, 0x80 + r3, 0x80 + r2, 0x80 + r1]
  }

  /** An upper-case hexadecimal digit. */
  function HexDigit(d: int): (h: char)
    requires 0 <= d < 16
    ensures ('0' <= h <= '9') || ('A' <= h <= 'F')
  {
    if d < 10 then ('0' as int + d) as char else ('A' as int + d - 10) as char
  }

  function HexValue(h: char): (r: Option<int>)
    ensures r.Some? ==> 0 <= r.value < 16
  {
    if '0' <= h <= '9' then Some(h as int - '0' as int)
    else if 'A' <= h <= 'F' then Some(h as int - 'A' as int + 10)
    else if 'a' <= h <= 'f' then Some(h as int - 'a' as int + 10)
    else None
  }

  function PercentByte(b: int): (s: string)
    requires IsByte(b)
    ensures |s| == 3
  {
    ['%', HexDigit(b / 16), HexDigit(b % 16)]
  }

  function PercentBytes(bs: seq<int>): (s: string)
    requires forall i :: 0 <= i < |bs| ==> IsByte(bs[i])
    ensures |s| == 3 * |bs|
    ensures forall i :: 0 <= i < |s| ==> UrlSafe(s[i])
  {
    if bs == [] then [] else PercentByte(bs[0]) + PercentBytes(bs[1..])
  }

  function EncodeChar(c: char): string {
    if Unreserved(c) then [c] else PercentBytes(Utf8(c))
  }

  /** `encodeURIComponent(s)`. Encoded text consists of unreserved characters
      and `%` escapes only; in particular it holds no `&`, `=`, `?` or `#` that
      could end a field of the address. */
  function Encode(s: string): (r: string)
    ensures forall i :: 0 <= i < |r| ==> UrlSafe(r[i])
    ensures |r| >= |s|
  {
    if s == [] then [] else EncodeChar(s[0]) + Encode(s[1..])
  }

  /** A character that may appear in an encoded component. */
  predicate UrlSafe(c: char) {
    Unreserved(c) || c == '%'
  }

  // ---------------------------------------------------------------------------
  // decodeURIComponent, the inverse the mail client applies
  // ---------------------------------------------------------------------------

  /** The byte written as `%XY` at position `i`, if there is one. */
  function ByteAt(s: string, i: nat): (r: Option<int>)
    ensures r.Some? ==> IsByte(r.value) && i + 3 <= |s|
  {
    if i + 3 <= |s| && s[i] == '%' && HexValue(s[i + 1]).Some? && HexValue(s[i + 2]).Some?
    then Some(16 * HexValue(s[i + 1]).value + HexValue(s[i + 2]).value)
    else None
  }

  /** The payload of a UTF-8 continuation byte written at position `i`. */
  function ContAt(s: string, i: nat): (r: Option<int>)
    ensures r.Some? ==> 0 <= r.value < 64 && i + 3 <= |s|
  {
    match ByteAt(s, i)
    case Some(b) => if 0x80 <= b < 0xC0 then Some(b - 0x80) else None
    case None => None
  }

  /** Decodes the escape sequence at the start of `s`: the code point and the
      number of characters it spans; `None` for malformed or overlong UTF-8. */
  function DecodeEscape(s: string): (r: Option<(char, nat)>)
    ensures r.Some? ==> 3 <= r.value.1 <= |s|
  {
    match ByteAt(s, 0)
    case None => None
    case Some(b0) =>
      if b0 < 0x80 then Some((b0 as char, 3))
      else if 0xC0 <= b0 < 0xE0 then
        (match ContAt(s, 3)
         case Some(x1) =>
           var k := (b0 - 0xC0) * 64 + x1;
           if 0x80 <= k then Some((k as char, 6)) else None
         case None => None)
      else if 0xE0 <= b0 < 0xF0 then
        (match (ContAt(s, 3), ContAt(s, 6))
         case (Some(x1), Some(x2)) =>
           var k := (b0 - 0xE0) * 4096 + x1 * 64 + x2;
           if 0x800 <= k && !(0xD800 <= k < 0xE000) then Some((k as char, 9)) else None
         case _ => None)
      else if 0xF0 <= b0 < 0xF8 then
        (match (ContAt(s, 3), ContAt(s, 6), ContAt(s, 9))
         case (Some(x1), Some(x2), Some(x3)) =>
           var k := (b0 - 0xF0) * 262144 + x1 * 4096 + x2 * 64 + x3;
           if 0x1_0000 <= k < 0x11_0000 then Some((k as char, 12)) else None
         case _ => None)
      else None
  }

  /** `decodeURIComponent(s)`; `None` where it would throw a `URIError`. */
  function Decode(s: string): Option<string>
    decreases |s|
  {
    if s == [] then Some([])
    else if s[0] != '%' then
      match Decode(s[1..])
      case Some(t) => Some([s[0]] + t)
      case None => None
    else
      match DecodeEscape(s)
      case None => None
      case Some((c, n)) =>
        match Decode(s[n..])
        case Some(t) => Some([c] + t)
        case None => None
  }

  lemma HexRoundTrip(d: int)
    requires 0 <= d < 16
    ensures HexValue(HexDigit(d)) == Some(d)
  {
  }

  lemma ByteRoundTrip(b: int, rest: string)
    requires IsByte(b)
    ensures ByteAt(PercentByte(b) + rest, 0) == Some(b)
  {
    HexRoundTrip(b / 16);
    HexRoundTrip(b % 16);
    var s := PercentByte(b) + rest;
    assert s[0] == '%' && s[1] == HexDigit(b / 16) && s[2] == HexDigit(b % 16);
  }

  /** Reading the `i`-th escape of a run of escapes. */
  lemma {:induction false} ByteOfRun(bs: seq<int>, rest: string, i: nat)
    requires forall j :: 0 <= j < |bs| ==> IsByte(bs[j])
    requires i < |bs|
    ensures ByteAt(PercentBytes(bs) + rest, 3 * i) == Some(bs[i])
  {
    var s := PercentBytes(bs) + rest;
    if i == 0 {
      assert s == PercentByte(bs[0]) + (PercentBytes(bs[1..]) + rest);
      ByteRoundTrip(bs[0], PercentBytes(bs[1..]) + rest);
    } else {
      var t := PercentBytes(bs[1..]) + rest;
      assert s == PercentByte(bs[0]) + t;
      ByteOfRun(bs[1..], rest, i - 1);
      assert s[3 * i..3 * i + 3] == t[3 * (i - 1)..3 * (i - 1) + 3];
    }
  }

  /** The escapes of a character decode back to it. */
  lemma EscapeRoundTrip(c: char, rest: string)
    requires !Unreserved(c)
    ensures DecodeEscape(EncodeChar(c) + rest) == Some((c, |EncodeChar(c)|))
  {
    var bs := Utf8(c);
    var s := EncodeChar(c) + rest;
    assert s == PercentBytes(bs) + rest;
    forall i | 0 <= i < |bs|
      ensures ByteAt(s, 3 * i) == Some(bs[i])
    {
      ByteOfRun(bs, rest, i);
    }
    var k := c as int;
    if k < 0x80 {
      assert ByteAt(s, 0) == Some(k);
    } else if k < 0x800 {
      TwoByteRoundTrip(c, s);
    } else if k < 0x1_0000 {
      ThreeByteRoundTrip(c, s);
    } else {
      FourByteRoundTrip(c, s);
    }
  }

  lemma TwoByteRoundTrip(c: char, s: string)
    requires 0x80 <= c as int < 0x800
    requires ByteAt(s, 0) == Some(Utf8(c)[0]) && ByteAt(s, 3) == Some(Utf8(c)[1])
    ensures DecodeEscape(s) == Some((c, 6))
  {
    var k := c as int;
    assert k == 64 * (k / 64) + k % 64;
  }

  lemma ThreeByteRoundTrip(c: char, s: string)
    requires 0x800 <= c as int < 0x1_0000
    requires ByteAt(s, 0) == Some(Utf8(c)[0]) && ByteAt(s, 3) == Some(Utf8(c)[1])
    requires ByteAt(s, 6) == Some(Utf8(c)[2])
    ensures DecodeEscape(s) == Some((c, 9))
  {
    var k := c as int;
    var q1, r1 := k / 64, k % 64;
    var q2, r2 := q1 / 64, q1 % 64;
    assert k == 64 * q1 + r1 && q1 == 64 * q2 + r2;
    assert q2 < 16;
    assert q2 * 4096 + r2 * 64 + r1 == k;
  }

  lemma FourByteRoundTrip(c: char, s: string)
    requires 0x1_0000 <= c as int
    requires ByteAt(s, 0) == Some(Utf8(c)[0]) && ByteAt(s, 3) == Some(Utf8(c)[1])
    requires ByteAt(s, 6) == Some(Utf8(c)[2]) && ByteAt(s, 9) == Some(Utf8(c)[3])
    ensures DecodeEscape(s) == Some((c, 12))
  {
    var k := c as int;
    var q1, r1 := k / 64, k % 64;
    var q2, r2 := q1 / 64, q1 % 64;
    var q3, r3 := q2 / 64, q2 % 64;
    assert k == 64 * q1 + r1 && q1 == 64 * q2 + r2 && q2 == 64 * q3 + r3;
    assert k < 0x11_0000;
    assert q3 < 8;
    assert q3 * 262144 + r3 * 4096 + r2 * 64 + r1 == k;
  }

  lemma DecodeEncodedChar(c: char, rest: string)
    ensures Decode(EncodeChar(c) + rest) == (match Decode(rest) case Some(t) => Some([c] + t) case None => None)
  {
    var s := EncodeChar(c) + rest;
    if Unreserved(c) {
      assert s[1..] == rest;
    } else {
      EscapeRoundTrip(c, rest);
      assert s[|EncodeChar(c)|..] == rest;
    }
  }

  /** `decodeURIComponent(encodeURIComponent(s)) == s`. */
  lemma {:induction false} DecodeEncode(s: string)
    ensures Decode(Encode(s)) == Some(s)
  {
    if s != [] {
      DecodeEncode(s[1..]);
      assert Encode(s) == EncodeChar(s[0]) + Encode(s[1..]);
      DecodeEncodedChar(s[0], Encode(s[1..]));
      assert [s[0]] + s[1..] == s;
    }
  }

  // ---------------------------------------------------------------------------
  // The mailto address
  // ---------------------------------------------------------------------------

  /** The address the browser is sent to. It reaches the fixed recipient with
      exactly the composed subject and body. */
  function MailtoUrl(name: string, phone: string, date: string): (r: string)
    ensures ParseMailto(r) == Some(Mail(Recipient, Subject(name), Body(name, phone, date)))
  {
    var es, eb := Encode(Subject(name)), Encode(Body(name, phone, date));
    DecodeEncode(Subject(name));
    DecodeEncode(Body(name, phone, date));
    ParseComposed(es, eb);
    "mailto:" + Recipient + "?subject=" + es + "&body=" + eb
  }

  /** The submit handler: read and trim the three fields, then compose. The
      recipient reads back the trimmed name from the subject and, when no field
      holds a line break, all three trimmed fields from the body. */
  function Submit(rawName: Option<string>, rawPhone: Option<string>, rawDate: Option<string>): (r: string)
    ensures ParseMailto(r).Some? && ParseMailto(r).value.to == Recipient
    ensures ReadSubject(ParseMailto(r).value.subject) == FormField(rawName)
    ensures var (name, phone, date) := (FormField(rawName), FormField(rawPhone), FormField(rawDate));
      '\n' !in name && '\n' !in phone && '\n' !in date ==>
      ReadBody(ParseMailto(r).value.body) == (name, phone, date)
  {
    var name, phone, date := FormField(rawName), FormField(rawPhone), FormField(rawDate);
    SubjectNamesApplicant(name);
    if '\n' !in name && '\n' !in phone && '\n' !in date then
      BodyStatesFields(name, phone, date);
      MailtoUrl(name, phone, date)
    else
      MailtoUrl(name, phone, date)
  }

  datatype Mail = Mail(to: string, subject: string, body: string)

  /** The text before and after the first `c` in `s`. */
  function SplitAt(s: string, c: char): (r: Option<(string, string)>)
    ensures r.Some? ==> r.value.0 + [c] + r.value.1 == s && c !in r.value.0
    ensures r.None? ==> c !in s
  {
    if s == [] then None
    else if s[0] == c then Some(([], s[1..]))
    else match SplitAt(s[1..], c)
      case Some((a, b)) => Some(([s[0]] + a, b))
      case None => None
  }

  lemma {:induction false} SplitAtFirst(a: string, c: char, b: string)
    requires c !in a
    ensures SplitAt(a + [c] + b, c) == Some((a, b))
  {
    if a == [] {
      assert a + [c] + b == [c] + b;
    } else {
      assert (a + [c] + b)[1..] == a[1..] + [c] + b;
      SplitAtFirst(a[1..], c, b);
      assert [a[0]] + a[1..] == a;
    }
  }

  function DropPrefix(s: string, p: string): Option<string> {
    if p <= s then Some(s[|p|..]) else None
  }

  /** The `subject` and `body` fields of a query, still encoded. */
  function ParseQuery(query: string): Option<(string, string)> {
    match SplitAt(query, '&')
    case None => None
    case Some((first, second)) =>
      if "subject=" <= first && "body=" <= second
      then Some((first[|"subject="|..], second[|"body="|..]))
      else None
  }

  /** How a mail client reads the address: recipient, then the `subject` and
      `body` fields, each decoded. */
  function ParseMailto(url: string): Option<Mail> {
    if !("mailto:" <= url) then None
    else match SplitAt(url[|"mailto:"|..], '?')
      case None => None
      case Some((to, query)) =>
        match ParseQuery(query)
        case None => None
        case Some((es, eb)) =>
          if Decode(es).Some? && Decode(eb).Some? then Some(Mail(to, Decode(es).value, Decode(eb).value))
          else None
  }

  /** Any address of the composed shape parses into its two encoded fields.
      Not inductive: `{:induction false}` only keeps Dafny from adding an
      induction hypothesis over the two strings, which slows this proof. */
  lemma {:induction false} ParseComposed(es: string, eb: string)
    requires forall i :: 0 <= i < |es| ==> UrlSafe(es[i])
    requires Decode(es).Some? && Decode(eb).Some?
    ensures ParseMailto("mailto:" + Recipient + "?subject=" + es + "&body=" + eb) ==
      Some(Mail(Recipient, Decode(es).value, Decode(eb).value))
  {
    QueryRoundTrip(es, eb);
    var query := "subject=" + es + "&body=" + eb;
    var url := "mailto:" + Recipient + "?subject=" + es + "&body=" + eb;
    AddressShape(Recipient, es, eb);
    assert url[|"mailto:"|..] == Recipient + "?" + query;
    SplitAtFirst(Recipient, '?', query);
  }

  lemma AddressShape(to: string, es: string, eb: string)
    ensures ("mailto:" + to + "?subject=" + es + "&body=" + eb)[|"mailto:"|..] ==
      to + "?" + ("subject=" + es + "&body=" + eb)
  {
    assert "mailto:" + to + "?subject=" + es + "&body=" + eb ==
      "mailto:" + (to + "?" + ("subject=" + es + "&body=" + eb));
  }

  lemma QueryRoundTrip(es: string, eb: string)
    requires forall i :: 0 <= i < |es| ==> UrlSafe(es[i])
    ensures ParseQuery("subject=" + es + "&body=" + eb) == Some((es, eb))
  {
    assert "subject=" + es + "&body=" + eb == ("subject=" + es) + "&" + ("body=" + eb);
    SplitAtFirst("subject=" + es, '&', "body=" + eb);
  }

  // ---------------------------------------------------------------------------
  // Reading the request back
  // ---------------------------------------------------------------------------

  /** `s.split(sep)`. */
  function Split(s: string, sep: char): (r: seq<string>)
    ensures |r| >= 1
    decreases |s|
  {
    match SplitAt(s, sep)
    case Some((a, b)) => [a] + Split(b, sep)
    case None => [s]
  }

  lemma {:induction false} SplitJoin(lines: seq<string>, sep: char)
    requires |lines| >= 1
    requires forall i :: 0 <= i < |lines| ==> sep !in lines[i]
    ensures Split(Join(lines, sep), sep) == lines
  {
    if |lines| == 1 {
    } else {
      SplitJoin(lines[1..], sep);
      SplitAtFirst(lines[0], sep, Join(lines[1..], sep));
      assert [lines[0]] + lines[1..] == lines;
    }
  }

  /** The name, phone and date a list of detail lines states; a field without a
      line reads as empty. */
  function ReadDetails(lines: seq<string>): (string, string, string) {
    if lines == [] then ("", "", "")
    else
      var (n, p, d) := ReadDetails(lines[1..]);
      var l := lines[0];
      if NameLabel <= l then (l[|NameLabel|..], p, d)
      else if PhoneLabel <= l then (n, l[|PhoneLabel|..], d)
      else if DateLabel <= l then (n, p, l[|DateLabel|..])
      else (n, p, d)
  }

  function ReadBody(body: string): (string, string, string) {
    if body == "" then ("", "", "") else ReadDetails(Split(body, '\n'))
  }

  /** The applicant a subject names. */
  function ReadSubject(subject: string): string {
    match DropPrefix(subject, SubjectBase + NameSeparator)
    case Some(name) => name
    case None => ""
  }

  lemma SubjectNamesApplicant(name: string)
    ensures ReadSubject(Subject(name)) == name
  {
    if name != "" {
      assert Subject(name) == (SubjectBase + NameSeparator) + name;
    } else {
      assert !(SubjectBase + NameSeparator <= Subject(name));
    }
  }

  /** The body holds every field that was filled in, each recoverable, as long
      as no field contains a line break. */
  lemma BodyStatesFields(name: string, phone: string, date: string)
    requires '\n' !in name && '\n' !in phone && '\n' !in date
    ensures ReadBody(Body(name, phone, date)) == (name, phone, date)
  {
    var lines := Details(name, phone, date);
    assert forall i :: 0 <= i < |lines| ==> '\n' !in lines[i];
    if lines != [] {
      SplitJoin(lines, '\n');
    }
    ReadDetailsOf(name, phone, date);
  }

  lemma ReadDetailsOf(name: string, phone: string, date: string)
    ensures ReadDetails(Details(name, phone, date)) == (name, phone, date)
  {
    var dl := if date != "" then [DateLabel + date] else [];
    var pl := if phone != "" then [PhoneLabel + phone] else [];
    var nl := if name != "" then [NameLabel + name] else [];
    assert ReadDetails(dl) == ("", "", date) by {
      if date != "" {
        assert (DateLabel + date)[0] == DateLabel[0];
        assert dl[1..] == [];
      }
    }
    assert ReadDetails(pl + dl) == ("", phone, date) by {
      if phone != "" {
        assert (PhoneLabel + phone)[0] == PhoneLabel[0];
        assert (pl + dl)[1..] == dl;
      }
    }
    assert ReadDetails(nl + pl + dl) == (name, phone, date) by {
      if name != "" {
        assert (nl + pl + dl)[1..] == pl + dl;
      } else {
        assert nl + pl + dl == pl + dl;
      }
    }
  }
}
