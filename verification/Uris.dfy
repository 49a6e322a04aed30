/** URIs as the model accepts them: a regular expression guards, a chain of replacements migrates. */
module Uris {
  import opened BomRefs

  // ---------- the gate ----------

  predicate IsHex(c: char) {
    '0' <= c <= '9' || 'A' <= c <= 'F' || 'a' <= c <= 'f'
  }

  // `%(?![0-9A-F]{2})`, ignoring case: a percent sign that two hex digits do not follow.
  predicate StrayPercent(s: string, i: nat) {
    i < |s| && s[i] == '%' && !(i + 2 < |s| && IsHex(s[i + 1]) && IsHex(s[i + 2]))
  }

  // `#.*#`: two hash signs on one line.
  predicate HashPair(s: string, i: nat, j: nat) {
    i < j < |s| && s[i] == '#' && s[j] == '#' && forall k :: i < k < j ==> s[k] != '\n'
  }

  // The invalid-URI expression is found nowhere in the text.
  predicate Accepts(s: string) {
    (forall i :: 0 <= i < |s| ==> !StrayPercent(s, i)) &&
    (forall i, j :: 0 <= i < j < |s| ==> !HashPair(s, i, j))
  }

  // The same, reading from left to right.
  predicate PercentsOk(s: string) {
    s == "" ||
    ((s[0] == '%' ==> |s| > 2 && IsHex(s[1]) && IsHex(s[2])) && PercentsOk(s[1..]))
  }

  // `open` tells whether the present line has had a hash sign.
  predicate HashesOk(s: string, open: bool) {
    s == "" ||
    (!(open && s[0] == '#') && HashesOk(s[1..], OpenAfter(s[0], open)))
  }

  function OpenAfter(c: char, open: bool): bool {
    if c == '#' then true else if c == '\n' then false else open
  }

  lemma {:induction false} PercentsOkIff(s: string)
    ensures PercentsOk(s) <==> forall i :: 0 <= i < |s| ==> !StrayPercent(s, i)
  {
    if s != "" {
      PercentsOkIff(s[1..]);
      forall i | 0 < i < |s| ensures StrayPercent(s, i) <==> StrayPercent(s[1..], i - 1) {
      }
      assert StrayPercent(s, 0) <==> !(s[0] == '%' ==> |s| > 2 && IsHex(s[1]) && IsHex(s[2]));
      if forall i :: 0 <= i < |s| ==> !StrayPercent(s, i) {
        forall i | 0 <= i < |s[1..]| ensures !StrayPercent(s[1..], i) {
          assert !StrayPercent(s, i + 1);
        }
      }
    }
  }

  // Whether a hash sign stands in the text before any line break.
  predicate HashOnFirstLine(s: string, j: nat) {
    j < |s| && s[j] == '#' && forall k :: 0 <= k < j ==> s[k] != '\n'
  }

  lemma {:induction false} HashesOkIff(s: string, open: bool)
    ensures HashesOk(s, open) <==>
            (forall i, j :: 0 <= i < j < |s| ==> !HashPair(s, i, j)) &&
            (open ==> forall j :: 0 <= j < |s| ==> !HashOnFirstLine(s, j))
  {
    if s != "" {
      var t := s[1..];
      HashesOkIff(t, OpenAfter(s[0], open));
      forall i, j | 0 < i < j < |s| ensures HashPair(s, i, j) <==> HashPair(t, i - 1, j - 1) {
        if HashPair(s, i, j) {
          assert forall k :: i - 1 < k < j - 1 ==> t[k] == s[k + 1];
        }
        if HashPair(t, i - 1, j - 1) {
          forall k | i < k < j ensures s[k] != '\n' { assert t[k - 1] != '\n'; }
        }
      }
      forall j | 0 < j < |s|
        ensures HashPair(s, 0, j) <==> s[0] == '#' && HashOnFirstLine(t, j - 1)
        ensures HashOnFirstLine(s, j) <==> s[0] != '\n' && HashOnFirstLine(t, j - 1)
      {
        ShiftLine(s, j);
      }
      ShiftQuantifiers(s, open);
    }
  }

  lemma ShiftLine(s: string, j: nat)
    requires 0 < j < |s|
    ensures HashPair(s, 0, j) <==> s[0] == '#' && HashOnFirstLine(s[1..], j - 1)
    ensures HashOnFirstLine(s, j) <==> s[0] != '\n' && HashOnFirstLine(s[1..], j - 1)
  {
  }

  lemma ShiftQuantifiers(s: string, open: bool)
    requires s != ""
    requires forall i, j :: 0 < i < j < |s| ==> (HashPair(s, i, j) <==> HashPair(s[1..], i - 1, j - 1))
    requires forall j :: 0 < j < |s| ==> (HashPair(s, 0, j) <==> s[0] == '#' && HashOnFirstLine(s[1..], j - 1))
    requires forall j :: 0 < j < |s| ==> (HashOnFirstLine(s, j) <==> s[0] != '\n' && HashOnFirstLine(s[1..], j - 1))
    ensures (forall i, j :: 0 <= i < j < |s| ==> !HashPair(s, i, j)) <==>
            (forall i, j :: 0 <= i < j < |s[1..]| ==> !HashPair(s[1..], i, j)) &&
            (s[0] == '#' ==> forall j :: 0 <= j < |s[1..]| ==> !HashOnFirstLine(s[1..], j))
    ensures (forall j :: 0 <= j < |s| ==> !HashOnFirstLine(s, j)) <==>
            s[0] != '#' && (s[0] != '\n' ==> forall j :: 0 <= j < |s[1..]| ==> !HashOnFirstLine(s[1..], j))
  {
    var t := s[1..];
    if forall i, j :: 0 <= i < j < |s| ==> !HashPair(s, i, j) {
      forall i, j | 0 <= i < j < |t| ensures !HashPair(t, i, j) { assert !HashPair(s, i + 1, j + 1); }
      forall j | 0 <= j < |t| && s[0] == '#' ensures !HashOnFirstLine(t, j) { assert !HashPair(s, 0, j + 1); }
    }
    if forall j :: 0 <= j < |s| ==> !HashOnFirstLine(s, j) {
      assert !HashOnFirstLine(s, 0);
      forall j | 0 <= j < |t| && s[0] != '\n' ensures !HashOnFirstLine(t, j) { assert !HashOnFirstLine(s, j + 1); }
    }
  }

  lemma AcceptsIff(s: string)
    ensures Accepts(s) <==> PercentsOk(s) && HashesOk(s, false)
  {
    PercentsOkIff(s);
    HashesOkIff(s, false);
  }

  // In so many characters: two hex digits behind every percent sign, and no second hash sign on a line.
  lemma AcceptsExactly(s: string)
    ensures Accepts(s) <==>
            (forall i :: 0 <= i < |s| && s[i] == '%' ==>
               |s[i..]| > 2 && s[i..][1] in "0123456789ABCDEFabcdef" && s[i..][2] in "0123456789ABCDEFabcdef") &&
            (forall i, j :: 0 <= i < j < |s| && s[i] == '#' && s[j] == '#' ==> '\n' in s[i..j])
  {
    PercentsExactly(s);
    HashesExactly(s);
  }

  lemma PercentsExactly(s: string)
    ensures (forall i :: 0 <= i < |s| ==> !StrayPercent(s, i)) <==>
            forall i :: 0 <= i < |s| && s[i] == '%' ==>
              |s[i..]| > 2 && s[i..][1] in "0123456789ABCDEFabcdef" && s[i..][2] in "0123456789ABCDEFabcdef"
  {
    forall i | 0 <= i < |s|
      ensures StrayPercent(s, i) <==>
              s[i] == '%' &&
              !(|s[i..]| > 2 && s[i..][1] in "0123456789ABCDEFabcdef" && s[i..][2] in "0123456789ABCDEFabcdef")
    {
      if i + 2 < |s| {
        HexCharacters(s[i + 1]);
        HexCharacters(s[i + 2]);
      }
    }
  }

  lemma HashesExactly(s: string)
    ensures (forall i, j :: 0 <= i < j < |s| ==> !HashPair(s, i, j)) <==>
            forall i, j :: 0 <= i < j < |s| && s[i] == '#' && s[j] == '#' ==> '\n' in s[i..j]
  {
    forall i, j | 0 <= i < j < |s| && s[i] == '#' && s[j] == '#'
      ensures HashPair(s, i, j) <==> '\n' !in s[i..j]
    {
      if !HashPair(s, i, j) {
        var k :| i < k < j && s[k] == '\n';
        assert s[i..j][k - i] == '\n';
      }
    }
  }

  lemma HexCharacters(c: char)
    ensures IsHex(c) <==> c in "0123456789ABCDEFabcdef"
  {
    if IsHex(c) {
      HexIsListed(c);
    }
  }

  lemma HexIsListed(c: char)
    requires IsHex(c)
    ensures c in "0123456789ABCDEFabcdef"
  {
    var hex := "0123456789ABCDEFabcdef";
    if c <= '9' {
      assert hex[c as int - '0' as int] as int == c as int;
    } else if c <= 'F' {
      assert hex[c as int - 'A' as int + 10] as int == c as int;
    } else {
      assert hex[c as int - 'a' as int + 16] as int == c as int;
    }
  }

  function Lower(c: char): char {
    if 'A' <= c <= 'Z' then 'a' + (c - 'A') else c
  }

  // Texts that differ in case are accepted alike.
  lemma AcceptanceIgnoresCase(s: string, t: string)
    requires |s| == |t| && forall i :: 0 <= i < |s| ==> Lower(s[i]) == Lower(t[i])
    ensures Accepts(s) <==> Accepts(t)
  {
    assert forall i :: 0 <= i < |s| ==> (StrayPercent(s, i) <==> StrayPercent(t, i));
    forall i, j | 0 <= i < j < |s| ensures HashPair(s, i, j) <==> HashPair(t, i, j) {
      assert forall k :: i < k < j ==> (s[k] == '\n' <==> t[k] == '\n');
    }
  }

  // ---------- the replacements ----------

  type Table = seq<(char, string)>

  const SPEC_REPLACEMENTS: Table := [
    (' ', "%20"), ('"', "%22"), ('\'', "%27"), ('[', "%5B"), (']', "%5D"),
    ('<', "%3C"), ('>', "%3E"), ('{', "%7B"), ('}', "%7D")
  ]

  // `str.replace` of a single character.
  function Replace(s: string, c: char, t: string): string {
    if s == "" then ""
    else (if s[0] == c then t else [s[0]]) + Replace(s[1..], c, t)
  }

  // `reduce` over a table of replacements, each applied to the whole text.
  function Fold(table: Table, s: string): string {
    if table == [] then s else Fold(table[1..], Replace(s, table[0].0, table[0].1))
  }

  function SpecMigrate(s: string): string {
    Fold(SPEC_REPLACEMENTS, s)
  }

  // What a table makes of one character.
  function Encode(table: Table, c: char): string {
    if table == [] then [c]
    else if table[0].0 == c then table[0].1
    else Encode(table[1..], c)
  }

  // The replacements in one pass, each character on its own.
  function OnePass(table: Table, s: string): string {
    if s == "" then "" else Encode(table, s[0]) + OnePass(table, s[1..])
  }

  predicate IsKey(table: Table, c: char) {
    exists row <- table :: row.0 == c
  }

  // One text for each character, and no text brings in a character that is itself replaced.
  predicate Independent(table: Table) {
    forall row <- table, other <- table :: (row.0 == other.0 ==> row.1 == other.1) && other.0 !in row.1
  }

  lemma {:induction false} ReplaceConcat(s: string, t: string, c: char, text: string)
    ensures Replace(s + t, c, text) == Replace(s, c, text) + Replace(t, c, text)
  {
    if s == "" {
      assert s + t == t;
    } else {
      assert (s + t)[1..] == s[1..] + t;
      ReplaceConcat(s[1..], t, c, text);
    }
  }

  lemma {:induction false} FoldConcat(table: Table, s: string, t: string)
    ensures Fold(table, s + t) == Fold(table, s) + Fold(table, t)
  {
    if table != [] {
      ReplaceConcat(s, t, table[0].0, table[0].1);
      FoldConcat(table[1..], Replace(s, table[0].0, table[0].1), Replace(t, table[0].0, table[0].1));
    }
  }

  lemma {:induction false} ReplaceAbsent(s: string, c: char, text: string)
    requires c !in s
    ensures Replace(s, c, text) == s
  {
    if s != "" {
      ReplaceAbsent(s[1..], c, text);
    }
  }

  lemma {:induction false} FoldInert(table: Table, s: string)
    requires forall i :: 0 <= i < |table| ==> table[i].0 !in s
    ensures Fold(table, s) == s
  {
    if table != [] {
      ReplaceAbsent(s, table[0].0, table[0].1);
      FoldInert(table[1..], s);
    }
  }

  lemma IndependentTail(table: Table)
    requires table != [] && Independent(table)
    ensures Independent(table[1..]) && forall i :: 0 <= i < |table[1..]| ==> table[1..][i].0 !in table[0].1
  {
  }

  lemma {:induction false} FoldOne(table: Table, c: char)
    requires Independent(table)
    ensures Fold(table, [c]) == Encode(table, c)
  {
    if table != [] {
      var text := table[0].1;
      IndependentTail(table);
      if table[0].0 == c {
        assert Replace([c], c, text) == text + Replace("", c, text) == text;
        FoldInert(table[1..], text);
      } else {
        ReplaceAbsent([c], table[0].0, text);
        FoldOne(table[1..], c);
      }
    }
  }

  // The chain of replacements is one pass over the characters.
  lemma {:induction false} FoldIsOnePass(table: Table, s: string)
    requires Independent(table)
    ensures Fold(table, s) == OnePass(table, s)
  {
    if s == "" {
      FoldInert(table, s);
    } else {
      FoldOne(table, s[0]);
      FoldIsOnePass(table, s[1..]);
      FoldConcat(table, [s[0]], s[1..]);
      assert s == [s[0]] + s[1..];
    }
  }

  lemma {:induction false} EncodeIs(table: Table, c: char)
    ensures if IsKey(table, c) then (c, Encode(table, c)) in table else Encode(table, c) == [c]
  {
    if table != [] {
      assert table == [table[0]] + table[1..];
      EncodeIs(table[1..], c);
      assert table[0].0 != c ==> (IsKey(table, c) <==> IsKey(table[1..], c));
      assert table[0] in table;
    }
  }

  // No character of the table is left.
  lemma {:induction false} OnePassLeavesNoKey(table: Table, s: string, c: char)
    requires Independent(table) && IsKey(table, c)
    ensures c !in OnePass(table, s)
  {
    if s != "" {
      OnePassLeavesNoKey(table, s[1..], c);
      EncodeIs(table, s[0]);
      var row :| row in table && row.0 == c;
      assert c !in Encode(table, s[0]);
    }
  }

  // The order of the rows, and repeats among them, do not matter.
  lemma {:induction false} RowOrderIsIrrelevant(table: Table, other: Table, s: string)
    requires Independent(table)
    requires forall row :: row in table <==> row in other
    ensures Fold(other, s) == Fold(table, s)
  {
    FoldIsOnePass(table, s);
    FoldIsOnePass(other, s);
    if s != "" {
      EncodeIs(table, s[0]);
      EncodeIs(other, s[0]);
      assert IsKey(table, s[0]) <==> IsKey(other, s[0]);
      RowOrderIsIrrelevant(table, other, s[1..]);
      FoldIsOnePass(table, s[1..]);
      FoldIsOnePass(other, s[1..]);
    }
  }

  // ---------- migration ----------

  // The characters that the table replaces, and what replaces them.
  predicate IsMigrated(c: char) {
    c == ' ' || c == '"' || c == '\'' || c == '[' || c == ']' || c == '<' || c == '>' || c == '{' || c == '}'
  }

  function CodeOf(c: char): string {
    match c
    case ' ' => "%20" case '"' => "%22" case '\'' => "%27" case '[' => "%5B" case ']' => "%5D"
    case '<' => "%3C" case '>' => "%3E" case '{' => "%7B" case '}' => "%7D"
    case _ => [c]
  }

  lemma CodeIsThreeCharacters(c: char)
    requires IsMigrated(c)
    ensures var e := CodeOf(c); |e| == 3 && e[0] == '%' && IsHex(e[1]) && IsHex(e[2])
  {
  }

  lemma SpecRow(i: nat)
    requires i < |SPEC_REPLACEMENTS|
    ensures IsMigrated(SPEC_REPLACEMENTS[i].0) && SPEC_REPLACEMENTS[i].1 == CodeOf(SPEC_REPLACEMENTS[i].0)
  {
  }

  lemma SpecRowIs(row: (char, string))
    requires row in SPEC_REPLACEMENTS
    ensures IsMigrated(row.0) && row.1 == CodeOf(row.0)
  {
  }

  lemma SpecTableIsIndependent()
    ensures Independent(SPEC_REPLACEMENTS)
  {
    forall row <- SPEC_REPLACEMENTS, other <- SPEC_REPLACEMENTS
      ensures (row.0 == other.0 ==> row.1 == other.1) && other.0 !in row.1
    {
      SpecRowIs(row);
      SpecRowIs(other);
      CodeIsThreeCharacters(row.0);
    }
  }

  lemma SpecKey(c: char)
    ensures IsKey(SPEC_REPLACEMENTS, c) <==> IsMigrated(c)
  {
  }

  // A replaced character becomes a percent sign and two hex digits; any other stays.
  lemma SpecCode(c: char)
    ensures Encode(SPEC_REPLACEMENTS, c) == CodeOf(c)
  {
    var t := SPEC_REPLACEMENTS;
    EncodeIs(t, c);
    SpecKey(c);
    if IsMigrated(c) {
      var i :| 0 <= i < |t| && t[i] == (c, Encode(t, c));
      SpecRow(i);
    }
  }

  // The migrated text, one character at a time.
  function Migrated(s: string): string {
    if s == "" then "" else CodeOf(s[0]) + Migrated(s[1..])
  }

  lemma {:induction false} OnePassIsMigrated(s: string)
    ensures OnePass(SPEC_REPLACEMENTS, s) == Migrated(s)
  {
    if s != "" {
      SpecCode(s[0]);
      OnePassIsMigrated(s[1..]);
    }
  }

  // The nine replacements, one after the other, are one pass that maps each character on its own.
  lemma SpecMigrateIsMigrated(s: string)
    ensures SpecMigrate(s) == Migrated(s)
    ensures forall c <- SpecMigrate(s) :: !IsMigrated(c)
  {
    SpecTableIsIndependent();
    FoldIsOnePass(SPEC_REPLACEMENTS, s);
    OnePassIsMigrated(s);
    forall c <- Migrated(s) ensures !IsMigrated(c) {
      SpecKey(c);
      if IsMigrated(c) {
        OnePassLeavesNoKey(SPEC_REPLACEMENTS, s, c);
      }
    }
  }

  lemma {:induction false} MigratedFixesClean(s: string)
    requires forall c <- s :: !IsMigrated(c)
    ensures Migrated(s) == s
  {
    if s != "" {
      assert s[0] in s && s == [s[0]] + s[1..];
      MigratedFixesClean(s[1..]);
    }
  }

  // Each of these nine becomes its code in hex digits behind a percent sign; any other stays.
  lemma MigrationOfCharacter(c: char, rest: string)
    ensures SpecMigrate([c] + rest) ==
            (if c in " \"'[]<>{}" then
               ['%', "0123456789ABCDEF"[c as int / 16], "0123456789ABCDEF"[c as int % 16]]
             else
               [c]) + SpecMigrate(rest)
  {
    SpecMigrateIsMigrated([c] + rest);
    SpecMigrateIsMigrated(rest);
    assert ([c] + rest)[1..] == rest;
    if IsMigrated(c) {
      CodeIsSpelt(c);
    }
  }

  lemma CodeIsSpelt(c: char)
    requires IsMigrated(c)
    ensures CodeOf(c) == ['%', "0123456789ABCDEF"[c as int / 16], "0123456789ABCDEF"[c as int % 16]]
  {
  }

  // So a text stays as it is exactly if it has none of the nine.
  lemma MigrationFixesIff(s: string)
    ensures SpecMigrate(s) == s <==> forall c <- s :: c !in " \"'[]<>{}"
  {
    SpecMigrateIsMigrated(s);
    if forall c <- s :: !IsMigrated(c) {
      MigratedFixesClean(s);
    }
  }

  // ---------- migration and what a text stands for ----------

  function HexValue(c: char): (n: nat)
    requires IsHex(c)
    ensures n < 16
  {
    if c <= '9' then (c - '0') as int else if c <= 'F' then (c - 'A') as int + 10 else (c - 'a') as int + 10
  }

  // The characters of a text, each escape of two hex digits undone (section 2.1 of RFC 3986).
  function Decoded(s: string): seq<nat> {
    if s == "" then []
    else if s[0] == '%' && |s| > 2 && IsHex(s[1]) && IsHex(s[2]) then
      [16 * HexValue(s[1]) + HexValue(s[2])] + Decoded(s[3..])
    else [s[0] as nat] + Decoded(s[1..])
  }

  lemma DecodedEscape(e: string, rest: string)
    requires |e| == 3 && e[0] == '%' && IsHex(e[1]) && IsHex(e[2])
    ensures Decoded(e + rest) == [16 * HexValue(e[1]) + HexValue(e[2])] + Decoded(rest)
  {
    assert (e + rest)[3..] == rest;
  }

  lemma CodeIsDecoded(c: char)
    requires IsMigrated(c)
    ensures var e := CodeOf(c);
            |e| == 3 && e[0] == '%' && IsHex(e[1]) && IsHex(e[2]) && 16 * HexValue(e[1]) + HexValue(e[2]) == c as int
  {
  }

  lemma {:induction false} MigratedDecodesAlike(s: string)
    ensures Decoded(Migrated(s)) == Decoded(s)
  {
    if s != "" {
      var rest := Migrated(s[1..]);
      if IsMigrated(s[0]) {
        CodeIsDecoded(s[0]);
        DecodedEscape(CodeOf(s[0]), rest);
        MigratedDecodesAlike(s[1..]);
      } else {
        assert Migrated(s) == [s[0]] + rest && Migrated(s)[1..] == rest;
        TwoHexAreKept(s[1..]);
        if s[0] == '%' && |s| > 2 && IsHex(s[1]) && IsHex(s[2]) {
          EscapeIsKept(s);
          MigratedDecodesAlike(s[3..]);
        } else {
          MigratedDecodesAlike(s[1..]);
        }
      }
    }
  }

  lemma EscapeIsKept(s: string)
    requires |s| > 2 && s[0] == '%' && IsHex(s[1]) && IsHex(s[2])
    ensures Migrated(s) == [s[0], s[1], s[2]] + Migrated(s[3..])
  {
    assert s[1..][1..] == s[2..] && s[2..][1..] == s[3..];
    CleanCharacterIsKept(s);
    CleanCharacterIsKept(s[1..]);
    CleanCharacterIsKept(s[2..]);
  }

  lemma CleanCharacterIsKept(s: string)
    requires s != "" && !IsMigrated(s[0])
    ensures Migrated(s) == [s[0]] + Migrated(s[1..])
  {
  }

  // Migration changes how a text is spelt, never what it stands for.
  lemma MigrationKeepsMeaning(s: string)
    ensures Decoded(SpecMigrate(s)) == Decoded(s)
  {
    SpecMigrateIsMigrated(s);
    MigratedDecodesAlike(s);
  }

  // ---------- migration and the gate ----------

  lemma TwoHexAreKept(s: string)
    ensures (|s| > 1 && IsHex(s[0]) && IsHex(s[1])) <==>
            (|Migrated(s)| > 1 && IsHex(Migrated(s)[0]) && IsHex(Migrated(s)[1]))
  {
  }

  // A well-formed percent sign makes no difference to what follows.
  lemma ThreeCharacters(e: string, rest: string, open: bool)
    requires |e| == 3 && e[0] == '%' && IsHex(e[1]) && IsHex(e[2])
    ensures PercentsOk(e + rest) <==> PercentsOk(rest)
    ensures HashesOk(e + rest, open) <==> HashesOk(rest, open)
  {
    var one := [e[2]] + rest;
    var two := [e[1]] + one;
    assert e + rest == ['%'] + two && (['%'] + two)[1..] == two;
    assert two[1..] == one && one[1..] == rest;
    assert PercentsOk(one) == PercentsOk(rest) && HashesOk(one, open) == HashesOk(rest, open);
    assert PercentsOk(two) == PercentsOk(one) && HashesOk(two, open) == HashesOk(one, open);
  }

  lemma {:induction false} PercentsAreKept(s: string)
    ensures PercentsOk(Migrated(s)) <==> PercentsOk(s)
  {
    if s != "" {
      var rest := Migrated(s[1..]);
      PercentsAreKept(s[1..]);
      if IsMigrated(s[0]) {
        CodeIsThreeCharacters(s[0]);
        ThreeCharacters(CodeOf(s[0]), rest, false);
      } else {
        assert Migrated(s) == [s[0]] + rest && Migrated(s)[1..] == rest;
        TwoHexAreKept(s[1..]);
      }
    }
  }

  lemma {:induction false} HashesAreKept(s: string, open: bool)
    ensures HashesOk(Migrated(s), open) <==> HashesOk(s, open)
  {
    if s != "" {
      var rest := Migrated(s[1..]);
      HashesAreKept(s[1..], OpenAfter(s[0], open));
      if IsMigrated(s[0]) {
        CodeIsThreeCharacters(s[0]);
        ThreeCharacters(CodeOf(s[0]), rest, open);
      } else {
        assert Migrated(s) == [s[0]] + rest && Migrated(s)[1..] == rest;
      }
    }
  }

  // A text is accepted exactly when its migration is.
  lemma MigrationKeepsAcceptance(s: string)
    ensures Accepts(SpecMigrate(s)) <==> Accepts(s)
  {
    SpecMigrateIsMigrated(s);
    AcceptsIff(s);
    AcceptsIff(SpecMigrate(s));
    PercentsAreKept(s);
    HashesAreKept(s, false);
  }

  // Migrating again changes nothing.
  lemma MigrationIsIdempotent(s: string)
    ensures SpecMigrate(SpecMigrate(s)) == SpecMigrate(s)
  {
    SpecMigrateIsMigrated(s);
    SpecMigrateIsMigrated(SpecMigrate(s));
    MigratedFixesClean(SpecMigrate(s));
  }

  // ---------- the class ----------

  datatype XsUri = XsUri(uri: string)

  /** `XsUri(uri)`; nothing stands for the InvalidUriException. */
  function Make(uri: string): Option<XsUri> {
    if Accepts(uri) then Some(XsUri(SpecMigrate(uri))) else None
  }

  function Serialize(u: XsUri): string {
    u.uri
  }

  function Deserialize(text: string): Option<XsUri> {
    Make(text)
  }

  // What has been constructed can be written and read back as the same.
  lemma UriRoundTrip(text: string)
    requires Make(text).Some?
    ensures Deserialize(Serialize(Make(text).value)) == Make(text)
  {
    MigrationKeepsAcceptance(text);
    MigrationIsIdempotent(text);
  }
}
