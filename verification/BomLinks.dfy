/** BOM-Links: URIs that name a BOM by serial number and version, and perhaps an object within it. */
module BomLinks {
  import opened BomRefs
  import opened Uris

  const BOM_LINK_PREFIX := "urn:cdx:"

  // ---------- percent-encoding of UTF-8 ----------

  type Byte = b: int | 0 <= b < 256

  // The bytes of a character (section 3 of RFC 3629).
  function Utf8(c: char): (bytes: seq<Byte>)
    ensures 1 <= |bytes| <= 4
  {
    var n := c as int;
    if n < 0x80 then [n]
    else if n < 0x800 then [0xC0 + n / 64, 0x80 + n % 64]
    else if n < 0x1_0000 then [0xE0 + n / 64 / 64, 0x80 + n / 64 % 64, 0x80 + n % 64]
    else [0xF0 + n / 64 / 64 / 64, 0x80 + n / 64 / 64 % 64, 0x80 + n / 64 % 64, 0x80 + n % 64]
  }

  lemma Utf8LengthByFirstByte(c: char)
    ensures var b := Utf8(c)[0];
            |Utf8(c)| == if b < 0x80 then 1 else if b < 0xE0 then 2 else if b < 0xF0 then 3 else 4
  {
  }

  // The unreserved characters of section 2.3 of RFC 3986, and the slash.
  predicate IsSafe(c: char) {
    'A' <= c <= 'Z' || 'a' <= c <= 'z' || '0' <= c <= '9' || c == '_' || c == '.' || c == '-' || c == '~' || c == '/'
  }

  function HexDigit(n: int): (c: char)
    requires 0 <= n < 16
    ensures IsHex(c) && HexValue(c) == n && c == "0123456789ABCDEF"[n]
  {
    if n < 10 then '0' + n as char else 'A' + (n - 10) as char
  }

  // Section 2.1 of RFC 3986.
  function Percent(b: Byte): string {
    ['%', HexDigit(b / 16), HexDigit(b % 16)]
  }

  function Percents(bytes: seq<Byte>): string {
    if bytes == [] then "" else Percent(bytes[0]) + Percents(bytes[1..])
  }

  function QuoteChar(c: char): string {
    if IsSafe(c) then [c] else Percents(Utf8(c))
  }

  /** `url_quote` */
  function Quote(s: string): string {
    if s == "" then "" else QuoteChar(s[0]) + Quote(s[1..])
  }

  lemma PercentsStart(bytes: seq<Byte>)
    requires bytes != []
    ensures |Percents(bytes)| >= 3 && Percents(bytes)[..3] == Percent(bytes[0])
  {
  }

  // A text stays as it is when it is quoted exactly if it has only these characters.
  lemma QuoteFixesIff(s: string)
    ensures Quote(s) == s <==>
            forall c <- s :: 'A' <= c <= 'Z' || 'a' <= c <= 'z' || '0' <= c <= '9' || c in "_.-~/"
  {
    QuoteLengthens(s);
  }

  lemma {:induction false} QuoteLengthens(s: string)
    ensures if forall c <- s :: IsSafe(c) then Quote(s) == s else |Quote(s)| > |s|
    ensures |Quote(s)| >= |s|
  {
    if s != "" {
      QuoteLengthens(s[1..]);
      assert s == [s[0]] + s[1..];
      if !IsSafe(s[0]) {
        PercentsStart(Utf8(s[0]));
      }
    }
  }

  // ---------- reading what was quoted ----------

  // The code point that UTF-8 bytes begin with (section 3 of RFC 3629), and how many bytes spell it.
  function First(b: seq<nat>): (r: (nat, nat))
    requires b != []
    ensures 1 <= r.1 <= |b|
  {
    if b[0] < 0x80 then (b[0], 1)
    else if b[0] < 0xE0 && |b| > 1 then (b[0] % 0x20 * 64 + b[1] % 64, 2)
    else if b[0] < 0xF0 && |b| > 2 then ((b[0] % 0x10 * 64 + b[1] % 64) * 64 + b[2] % 64, 3)
    else if |b| > 3 then (((b[0] % 8 * 64 + b[1] % 64) * 64 + b[2] % 64) * 64 + b[3] % 64, 4)
    else (0, 1)
  }

  function FromUtf8(b: seq<nat>): seq<nat> {
    if b == [] then [] else [First(b).0] + FromUtf8(b[First(b).1..])
  }

  lemma FirstOfUtf8(c: char)
    ensures First(Utf8(c)) == (c as nat, |Utf8(c)|)
  {
    if 0x800 <= c as nat < 0x1_0000 {
      FirstOfThree(c);
    } else if 0x1_0000 <= c as nat {
      FirstOfFour(c);
    }
  }

  lemma FirstOfThree(c: char)
    requires 0x800 <= c as nat < 0x1_0000
    ensures First(Utf8(c)) == (c as nat, 3)
  {
    var n, b := c as nat, Utf8(c);
    assert b[0] % 0x10 == n / 64 / 64 && b[1] % 64 == n / 64 % 64 && b[2] % 64 == n % 64;
  }

  lemma FirstOfFour(c: char)
    requires 0x1_0000 <= c as nat
    ensures First(Utf8(c)) == (c as nat, 4)
  {
    var n, b := c as nat, Utf8(c);
    assert b[0] % 8 == n / 64 / 64 / 64 && b[1] % 64 == n / 64 / 64 % 64;
    assert b[2] % 64 == n / 64 % 64 && b[3] % 64 == n % 64;
  }

  lemma FirstOfConcat(c: char, rest: seq<nat>)
    ensures First(Utf8(c) + rest) == First(Utf8(c))
  {
    Utf8LengthByFirstByte(c);
  }

  lemma ReadUtf8(c: char, rest: seq<nat>)
    ensures FromUtf8(Utf8(c) + rest) == [c as nat] + FromUtf8(rest)
  {
    FirstOfUtf8(c);
    FirstOfConcat(c, rest);
    assert (Utf8(c) + rest)[|Utf8(c)|..] == rest;
  }

  lemma DecodedPercent(b: Byte, t: string)
    ensures Decoded(Percent(b) + t) == [b] + Decoded(t)
  {
    DecodedEscape(Percent(b), t);
  }

  lemma HeadOfConcat(s: seq<nat>, t: seq<nat>)
    requires s != []
    ensures s + t == [s[0]] + (s[1..] + t)
  {
  }

  lemma {:induction false} DecodedPercents(bytes: seq<Byte>, t: string)
    ensures Decoded(Percents(bytes) + t) == bytes + Decoded(t)
  {
    if bytes == [] {
      assert Percents(bytes) + t == t;
    } else {
      var b, more := bytes[0], bytes[1..];
      DecodedPercents(more, t);
      DecodedPercent(b, Percents(more) + t);
      assert Percents(bytes) + t == Percent(b) + (Percents(more) + t);
      HeadOfConcat(bytes, Decoded(t));
    }
  }

  lemma DecodedQuoteChar(c: char, t: string)
    ensures Decoded(QuoteChar(c) + t) == Utf8(c) + Decoded(t)
  {
    if IsSafe(c) {
      assert ([c] + t)[1..] == t;
    } else {
      DecodedPercents(Utf8(c), t);
    }
  }

  // What was quoted is read back, code point by code point.
  lemma {:induction false} QuoteReadsBack(s: string)
    ensures FromUtf8(Decoded(Quote(s))) == seq(|s|, i requires 0 <= i < |s| => s[i] as nat)
  {
    if s != "" {
      QuoteReadsBack(s[1..]);
      DecodedQuoteChar(s[0], Quote(s[1..]));
      ReadUtf8(s[0], Decoded(Quote(s[1..])));
    }
  }

  // Different texts are quoted differently.
  lemma QuoteIsInjective(s: string, t: string)
    requires Quote(s) == Quote(t)
    ensures s == t
  {
    QuoteReadsBack(s);
    QuoteReadsBack(t);
    var codes := FromUtf8(Decoded(Quote(s)));
    assert forall i :: 0 <= i < |s| ==> codes[i] == s[i] as nat && codes[i] == t[i] as nat;
  }

  // ---------- decimal numbers ----------

  function DigitChar(n: int): (c: char)
    requires 0 <= n < 10
    ensures '0' <= c <= '9'
  {
    '0' + n as char
  }

  function Digits(n: nat): string {
    if n < 10 then [DigitChar(n)] else Digits(n / 10) + [DigitChar(n % 10)]
  }

  /** `str` of an integer */
  function Decimal(n: int): string {
    if n < 0 then "-" + Digits(-n) else Digits(n)
  }

  lemma {:induction false} DigitsAreDigits(n: nat)
    ensures Digits(n) != "" && (n != 0 ==> Digits(n)[0] != '0') && forall c <- Digits(n) :: '0' <= c <= '9'
  {
    if n >= 10 {
      DigitsAreDigits(n / 10);
    }
  }

  // The number that decimal digits spell.
  function ReadDigits(s: string): int {
    if s == "" then 0 else 10 * ReadDigits(s[..|s| - 1]) + (s[|s| - 1] as int - '0' as int)
  }

  lemma {:induction false} ReadDigitsBack(n: nat)
    ensures ReadDigits(Digits(n)) == n
  {
    if n >= 10 {
      ReadDigitsBack(n / 10);
    }
    assert Digits(n)[..|Digits(n)| - 1] == if n < 10 then "" else Digits(n / 10);
  }

  // A decimal is digits without a leading zero that spell the number, behind a minus sign if it is negative.
  lemma DecimalReadsBack(n: int)
    ensures Decimal(n) != "" && (n < 0 <==> Decimal(n)[0] == '-')
    ensures var digits := if n < 0 then Decimal(n)[1..] else Decimal(n);
            digits != "" && (n != 0 ==> digits[0] != '0') && (forall c <- digits :: '0' <= c <= '9') &&
            ReadDigits(digits) == if n < 0 then -n else n
  {
    var m := if n < 0 then -n else n;
    ReadDigitsBack(m);
    DigitsAreDigits(m);
    assert Decimal(n) == (if n < 0 then "-" else "") + Digits(m) && Digits(m)[0] in Digits(m);
  }

  lemma DecimalIsInjective(m: int, n: int)
    requires Decimal(m) == Decimal(n)
    ensures m == n
  {
    DecimalReadsBack(m);
    DecimalReadsBack(n);
  }

  // ---------- the link ----------

  // A missing ref counts as the empty one, and an anonymous bom-ref has the empty text.
  function RefText(ref: Option<string>): string {
    if ref.Some? then ref.value else ""
  }

  function Fragment(ref: Option<string>): string {
    if RefText(ref) == "" then "" else "#" + Quote(RefText(ref))
  }

  // What follows the serial number.
  function AfterSerial(version: int, ref: Option<string>): string {
    "/" + (Decimal(version) + Fragment(ref))
  }

  function LinkText(serial: string, version: int, ref: Option<string>): string {
    BOM_LINK_PREFIX + (serial + AfterSerial(version, ref))
  }

  /** `make_bom_link` */
  function MakeBomLink(serial: string, version: int, ref: Option<string>): Option<XsUri> {
    Make(LinkText(serial, version, ref))
  }

  /** `is_bom_link` */
  predicate IsBomLink(u: XsUri) {
    BOM_LINK_PREFIX <= u.uri
  }

  // The text of a UUID: 8, 4, 4, 4 and 12 lower-case hex digits, with hyphens between.
  predicate IsUuid(s: string) {
    |s| == 36 &&
    forall i :: 0 <= i < 36 ==>
      if i == 8 || i == 13 || i == 18 || i == 23 then s[i] == '-' else '0' <= s[i] <= '9' || 'a' <= s[i] <= 'f'
  }

  // Characters that neither gate nor migration takes notice of.
  predicate IsPlain(c: char) {
    c != '%' && c != '#' && c != '\n' && !IsMigrated(c)
  }

  predicate Plain(s: string) {
    forall c <- s :: IsPlain(c)
  }

  predicate Clean(s: string) {
    forall c <- s :: !IsMigrated(c)
  }

  lemma ConcatOfTexts(s: string, t: string)
    ensures Plain(s + t) <==> Plain(s) && Plain(t)
    ensures Clean(s + t) <==> Clean(s) && Clean(t)
  {
  }

  lemma {:induction false} PercentsOkConcat(s: string, t: string)
    requires t == "" || !IsHex(t[0])
    ensures PercentsOk(s + t) <==> PercentsOk(s) && PercentsOk(t)
  {
    if s == "" {
      assert s + t == t;
    } else {
      assert (s + t)[1..] == s[1..] + t;
      PercentsOkConcat(s[1..], t);
      assert forall i :: 0 <= i < |s + t| ==> (s + t)[i] == if i < |s| then s[i] else t[i - |s|];
    }
  }

  // Whether the last line of a text has a hash sign; `open` tells the same of what stands before it.
  function OpenAtEnd(s: string, open: bool): bool {
    if s == "" then open else OpenAtEnd(s[1..], OpenAfter(s[0], open))
  }

  lemma {:induction false} HashesOkConcat(s: string, t: string, open: bool)
    ensures HashesOk(s + t, open) <==> HashesOk(s, open) && HashesOk(t, OpenAtEnd(s, open))
  {
    if s == "" {
      assert s + t == t;
    } else {
      assert (s + t)[1..] == s[1..] + t;
      HashesOkConcat(s[1..], t, OpenAfter(s[0], open));
    }
  }

  // Plain text before a text makes no difference.
  lemma {:induction false} PlainPrefix(s: string, t: string, open: bool)
    requires Plain(s)
    ensures PercentsOk(s + t) <==> PercentsOk(t)
    ensures HashesOk(s + t, open) <==> HashesOk(t, open)
  {
    if s == "" {
      assert s + t == t;
    } else {
      assert s[0] in s && (s + t)[1..] == s[1..] + t && forall c <- s[1..] :: c in s;
      PlainPrefix(s[1..], t, open);
    }
  }

  lemma PlainText(s: string, open: bool)
    requires Plain(s)
    ensures PercentsOk(s) && HashesOk(s, open)
  {
    PlainPrefix(s, "", open);
    assert s + "" == s;
  }

  lemma {:induction false} PlainKeepsOpen(s: string, open: bool)
    requires Plain(s)
    ensures OpenAtEnd(s, open) == open
  {
    if s != "" {
      assert s[0] in s && forall c <- s[1..] :: c in s;
      PlainKeepsOpen(s[1..], open);
    }
  }

  lemma {:induction false} PercentsArePlain(bytes: seq<Byte>, t: string, open: bool)
    ensures PercentsOk(Percents(bytes) + t) <==> PercentsOk(t)
    ensures HashesOk(Percents(bytes) + t, open) <==> HashesOk(t, open)
    ensures Clean(Percents(bytes))
  {
    if bytes == [] {
      assert Percents(bytes) + t == t;
    } else {
      PercentsArePlain(bytes[1..], t, open);
      OnePercent(bytes[0], Percents(bytes[1..]) + t, open);
      assert Percents(bytes) + t == Percent(bytes[0]) + (Percents(bytes[1..]) + t);
      ConcatOfTexts(Percent(bytes[0]), Percents(bytes[1..]));
    }
  }

  lemma OnePercent(b: Byte, rest: string, open: bool)
    ensures PercentsOk(Percent(b) + rest) <==> PercentsOk(rest)
    ensures HashesOk(Percent(b) + rest, open) <==> HashesOk(rest, open)
    ensures Clean(Percent(b))
  {
    ThreeCharacters(Percent(b), rest, open);
  }

  // A quoted text has well-formed percent signs, no hash signs, and nothing to migrate.
  lemma {:induction false} QuotedText(s: string)
    ensures PercentsOk(Quote(s)) && HashesOk(Quote(s), true) && Clean(Quote(s))
  {
    if s != "" {
      QuotedText(s[1..]);
      ConcatOfTexts(QuoteChar(s[0]), Quote(s[1..]));
      if IsSafe(s[0]) {
        assert Quote(s)[1..] == Quote(s[1..]);
      } else {
        PercentsArePlain(Utf8(s[0]), Quote(s[1..]), true);
      }
    }
  }

  lemma DecimalIsPlain(n: int)
    ensures Plain(Decimal(n)) && Clean(Decimal(n))
  {
    DigitsAreDigits(if n < 0 then -n else n);
  }

  lemma FragmentIsAccepted(ref: Option<string>, open: bool)
    ensures PercentsOk(Fragment(ref)) && Clean(Fragment(ref))
    ensures HashesOk(Fragment(ref), open) <==> !open || RefText(ref) == ""
  {
    if RefText(ref) != "" {
      var quoted := Quote(RefText(ref));
      QuotedText(RefText(ref));
      assert Fragment(ref)[1..] == quoted;
      ConcatOfTexts("#", quoted);
    }
  }

  lemma TailIsAccepted(version: int, ref: Option<string>, open: bool)
    ensures PercentsOk(AfterSerial(version, ref)) && Clean(AfterSerial(version, ref))
    ensures HashesOk(AfterSerial(version, ref), open) <==> !open || RefText(ref) == ""
  {
    DecimalIsPlain(version);
    FragmentIsAccepted(ref, open);
    PlainPrefix(Decimal(version), Fragment(ref), open);
    PlainPrefix("/", Decimal(version) + Fragment(ref), open);
    ConcatOfTexts(Decimal(version), Fragment(ref));
    ConcatOfTexts("/", Decimal(version) + Fragment(ref));
  }

  lemma PrefixIsPlain()
    ensures Plain(BOM_LINK_PREFIX) && |BOM_LINK_PREFIX| == 8
  {
  }

  // A link is accepted exactly if its serial number is, and the last line of that leaves room for
  // the hash sign of a fragment.
  lemma LinkIsAcceptedIff(serial: string, version: int, ref: Option<string>)
    ensures MakeBomLink(serial, version, ref).Some? <==>
            Accepts(serial) && (RefText(ref) != "" ==> !OpenAtEnd(serial, false))
  {
    var tail := AfterSerial(version, ref);
    PrefixIsPlain();
    AcceptsIff(LinkText(serial, version, ref));
    AcceptsIff(serial);
    PlainPrefix(BOM_LINK_PREFIX, serial + tail, false);
    PercentsOkConcat(serial, tail);
    HashesOkConcat(serial, tail, false);
    TailIsAccepted(version, ref, OpenAtEnd(serial, false));
  }

  lemma UuidIsPlain(serial: string)
    requires IsUuid(serial)
    ensures Plain(serial) && Clean(serial)
  {
  }

  lemma LinkIsClean(serial: string, version: int, ref: Option<string>)
    requires Clean(serial)
    ensures Clean(LinkText(serial, version, ref))
  {
    PrefixIsPlain();
    TailIsAccepted(version, ref, false);
    ConcatOfTexts(serial, AfterSerial(version, ref));
    ConcatOfTexts(BOM_LINK_PREFIX, serial + AfterSerial(version, ref));
  }

  // For the serial number of a BOM there is always a link; migration leaves it as it was written,
  // and it is recognised as a BOM-Link.
  lemma UuidLink(serial: string, version: int, ref: Option<string>)
    requires IsUuid(serial)
    ensures MakeBomLink(serial, version, ref) == Some(XsUri(LinkText(serial, version, ref)))
    ensures IsBomLink(MakeBomLink(serial, version, ref).value)
  {
    UuidIsPlain(serial);
    PlainText(serial, false);
    PlainKeepsOpen(serial, false);
    AcceptsIff(serial);
    LinkIsAcceptedIff(serial, version, ref);
    LinkIsClean(serial, version, ref);
    SpecMigrateIsMigrated(LinkText(serial, version, ref));
    MigratedFixesClean(LinkText(serial, version, ref));
    PrefixIsPlain();
  }

  // What a link is made of.
  lemma LinkIsMadeOf(serial: string, version: int, ref: Option<string>)
    ensures MakeBomLink(serial, version, ref) ==
            Make("urn:cdx:" + serial + "/" + Decimal(version) +
                 if ref.None? || ref.value == "" then "" else "#" + Quote(ref.value))
  {
    var prefix, slash, v, f := "urn:cdx:", "/", Decimal(version), Fragment(ref);
    assert prefix + serial + slash + v + f == prefix + (serial + (slash + (v + f)));
  }

  // Any URI is recognised as a BOM-Link exactly if the text it was made from begins like one.
  lemma LinkIsRecognisedIff(text: string)
    requires Make(text).Some?
    ensures IsBomLink(Make(text).value) <==> "urn:cdx:" <= text
  {
    SpecMigrateIsMigrated(text);
    PrefixIsPlain();
    PrefixIsKept("urn:cdx:", text);
  }

  lemma {:induction false} PrefixIsKept(p: string, s: string)
    requires Plain(p)
    ensures p <= Migrated(s) <==> p <= s
  {
    if p != "" && s != "" {
      assert p[0] in p && forall c <- p[1..] :: c in p;
      PrefixIsKept(p[1..], s[1..]);
      assert p == [p[0]] + p[1..] && s == [s[0]] + s[1..];
      if IsMigrated(s[0]) {
        CodeIsThreeCharacters(s[0]);
        assert Migrated(s)[0] == '%';
      } else {
        CleanCharacterIsKept(s);
      }
    }
  }

  // The part of a text before its first hash sign.
  function BeforeHash(s: string): string {
    if s == "" || s[0] == '#' then "" else [s[0]] + BeforeHash(s[1..])
  }

  lemma {:induction false} BeforeHashIs(s: string, x: string)
    requires '#' !in s && (x == "" || x[0] == '#')
    ensures BeforeHash(s + x) == s
  {
    if s == "" {
      assert s + x == x;
    } else {
      assert (s + x)[1..] == s[1..] + x;
      BeforeHashIs(s[1..], x);
    }
  }

  lemma LinkSplits(serial: string, version: int, ref: Option<string>)
    requires |serial| == 36
    ensures var l := LinkText(serial, version, ref);
            |l| >= 45 && l[8..][..36] == serial && BeforeHash(l[8..][36..][1..]) == Decimal(version) &&
            l[8..][36..][1..] == Decimal(version) + Fragment(ref)
  {
    PrefixIsPlain();
    var rest := Decimal(version) + Fragment(ref);
    assert LinkText(serial, version, ref)[8..] == serial + AfterSerial(version, ref);
    assert (serial + AfterSerial(version, ref))[36..] == AfterSerial(version, ref);
    assert AfterSerial(version, ref)[1..] == rest;
    DecimalIsPlain(version);
    assert '#' !in Decimal(version);
    BeforeHashIs(Decimal(version), Fragment(ref));
  }

  // A link names one serial number, one version, and one ref.
  lemma LinkIsInjective(serial: string, version: int, ref: Option<string>,
                        serial': string, version': int, ref': Option<string>)
    requires IsUuid(serial) && IsUuid(serial')
    requires MakeBomLink(serial, version, ref) == MakeBomLink(serial', version', ref')
    ensures serial == serial' && version == version' && RefText(ref) == RefText(ref')
  {
    UuidLink(serial, version, ref);
    UuidLink(serial', version', ref');
    LinkSplits(serial, version, ref);
    LinkSplits(serial', version', ref');
    DecimalIsInjective(version, version');
    var d := Decimal(version);
    assert (d + Fragment(ref))[|d|..] == Fragment(ref) && (d + Fragment(ref'))[|d|..] == Fragment(ref');
    FragmentIsInjective(ref, ref');
  }

  lemma FragmentIsInjective(ref: Option<string>, ref': Option<string>)
    ensures Fragment(ref) == Fragment(ref') ==> RefText(ref) == RefText(ref')
  {
    if RefText(ref) != "" && RefText(ref') != "" && Fragment(ref) == Fragment(ref') {
      assert Fragment(ref)[1..] == Quote(RefText(ref)) && Fragment(ref')[1..] == Quote(RefText(ref'));
      QuoteIsInjective(RefText(ref), RefText(ref'));
    }
  }
}
