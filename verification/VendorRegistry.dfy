/** MAC prefix to vendor mapping: parsing the lines of `ieee-oui.txt`, and longest-prefix lookup. */
module VendorRegistry {
  import opened Octets
  import opened Wrappers

  // ----- text

  predicate IsWhitespace(c: char) {
    || '\t' <= c <= '\r' || c == ' ' || c == '\U{0085}' || c == '\U{00A0}' || c == '\U{1680}'
    || '\U{2000}' <= c <= '\U{200A}' || c == '\U{2028}' || c == '\U{2029}' || c == '\U{202F}'
    || c == '\U{205F}' || c == '\U{3000}'
  }

  function TrimStart(s: string): string {
    if s == [] || !IsWhitespace(s[0]) then s else TrimStart(s[1..])
  }

  function TrimEnd(s: string): string {
    if s == [] || !IsWhitespace(s[|s| - 1]) then s else TrimEnd(s[..|s| - 1])
  }

  function Trim(s: string): string {
    TrimEnd(TrimStart(s))
  }

  /** `split_once`: the text before and after the first separator. */
  function SplitOnce(s: string, separator: char): Option<(string, string)> {
    if s == [] then None else
    if s[0] == separator then Some(([], s[1..])) else
    match SplitOnce(s[1..], separator)
    case None => None
    case Some((before, after)) => Some(([s[0]] + before, after))
  }

  predicate IsHexDigit(c: char) {
    '0' <= c <= '9' || 'A' <= c <= 'F' || 'a' <= c <= 'f'
  }

  function ToUpper(c: char): char {
    if 'a' <= c <= 'z' then c - 'a' + 'A' else c
  }

  function NormalizeHexadecimalPrefix(field: string): string {
    if field == [] then [] else
    (if IsHexDigit(field[0]) then [ToUpper(field[0])] else []) + NormalizeHexadecimalPrefix(field[1..])
  }

  // ----- one line

  datatype Line = Ignored | Mapping(prefix: string, vendor: string) | MissingTab | InvalidPrefix(prefix: string)

  predicate AllHexDigits(s: string) {
    forall i :: 0 <= i < |s| ==> IsHexDigit(s[i])
  }

  function ClassifyLine(raw: string): Line {
    var line := Trim(raw);
    if line == [] || line[0] == '#' then Ignored else
    match SplitOnce(line, '\t')
    case None => MissingTab
    case Some((prefixField, vendorField)) =>
      var prefix := NormalizeHexadecimalPrefix(prefixField);
      if |prefix| < 2 || |prefix| > 12 || !AllHexDigits(prefix) then InvalidPrefix(prefix) else
      var vendor := Trim(vendorField);
      if vendor == [] then InvalidPrefix(prefix) else Mapping(prefix, vendor)
  }

  lemma NormalizedIsHex(field: string)
    ensures AllHexDigits(NormalizeHexadecimalPrefix(field))
  {
  }

  lemma {:induction false} SplitOnceRejoins(s: string, separator: char)
    ensures SplitOnce(s, separator).Some? ==>
      var (before, after) := SplitOnce(s, separator).value;
      s == before + [separator] + after && separator !in before
    ensures SplitOnce(s, separator).None? <==> separator !in s
  {
    if s != [] && s[0] != separator {
      SplitOnceRejoins(s[1..], separator);
      assert s == [s[0]] + s[1..];
    }
  }

  lemma {:induction false} TrimEndKeepsLast(s: string)
    ensures TrimEnd(s) <= s
    ensures TrimEnd(s) != [] ==> !IsWhitespace(TrimEnd(s)[|TrimEnd(s)| - 1])
    ensures (exists i :: 0 <= i < |s| && !IsWhitespace(s[i])) ==> TrimEnd(s) != []
  {
    if s != [] && IsWhitespace(s[|s| - 1]) {
      TrimEndKeepsLast(s[..|s| - 1]);
      if i :| 0 <= i < |s| && !IsWhitespace(s[i]) {
        assert s[..|s| - 1][i] == s[i];
      }
    }
  }

  lemma {:induction false} TrimStartKeepsInk(s: string)
    requires exists i :: 0 <= i < |s| && !IsWhitespace(s[i])
    ensures exists i :: 0 <= i < |TrimStart(s)| && !IsWhitespace(TrimStart(s)[i])
  {
    var i :| 0 <= i < |s| && !IsWhitespace(s[i]);
    if IsWhitespace(s[0]) {
      assert s[1..][i - 1] == s[i];
      TrimStartKeepsInk(s[1..]);
      assert TrimStart(s) == TrimStart(s[1..]);
    } else {
      assert TrimStart(s)[i] == s[i];
    }
  }

  lemma TrimKeepsInk(s: string, i: nat)
    requires i < |s| && !IsWhitespace(s[i])
    ensures Trim(s) != []
  {
    TrimStartKeepsInk(s);
    TrimEndKeepsLast(TrimStart(s));
  }

  /**
   The only prefix error is a wrong number of hexadecimal digits. Other characters in the prefix
   field are dropped, so they never cause an error, and a trimmed line with a tab always has a
   vendor.
   */
  lemma PrefixErrorsAreCounts(raw: string)
    requires var line := Trim(raw); line != [] && line[0] != '#' && '\t' in line
    ensures SplitOnce(Trim(raw), '\t').Some?
    ensures var (prefixField, vendorField) := SplitOnce(Trim(raw), '\t').value;
      var prefix := NormalizeHexadecimalPrefix(prefixField);
      ClassifyLine(raw) == if 2 <= |prefix| <= 12 then Mapping(prefix, Trim(vendorField)) else InvalidPrefix(prefix)
  {
    hide Trim, NormalizeHexadecimalPrefix, SplitOnce;
    var line := Trim(raw);
    SplitOnceRejoins(line, '\t');
    var (prefixField, vendorField) := SplitOnce(line, '\t').value;
    NormalizedIsHex(prefixField);
    TrimmedEndsInInk(raw);
    var last := |line| - 1;
    assert line[last] == if vendorField == [] then '\t' else vendorField[|vendorField| - 1];
    TrimKeepsInk(vendorField, |vendorField| - 1);
  }

  lemma TrimmedEndsInInk(raw: string)
    ensures Trim(raw) != [] ==> !IsWhitespace(Trim(raw)[|Trim(raw)| - 1])
  {
    TrimEndKeepsLast(TrimStart(raw));
  }

  /** A prefix field with characters that are not hexadecimal is accepted, not rejected. */
  lemma NonHexadecimalCharactersAreAccepted()
    ensures ClassifyLine("zF\tX") == InvalidPrefix("F")
    ensures ClassifyLine("zF4\tX") == Mapping("F4", "X")
  {
    hide SplitOnce, NormalizeHexadecimalPrefix;
    assert Trim("zF\tX") == "zF\tX" && Trim("zF4\tX") == "zF4\tX" && Trim("X") == "X";
    SplitExamples();
    NormalizeExamples();
  }

  lemma SplitExamples()
    ensures SplitOnce("zF\tX", '\t') == Some(("zF", "X"))
    ensures SplitOnce("zF4\tX", '\t') == Some(("zF4", "X"))
  {
    SplitIsUnique("zF\tX", "zF", "X");
    SplitIsUnique("zF4\tX", "zF4", "X");
  }

  lemma {:induction false} SplitIsUnique(s: string, before: string, after: string)
    requires s == before + ['\t'] + after && '\t' !in before
    ensures SplitOnce(s, '\t') == Some((before, after))
  {
    if before == [] {
      assert s[1..] == after;
    } else {
      assert s[1..] == before[1..] + ['\t'] + after;
      assert before == [before[0]] + before[1..];
      SplitIsUnique(s[1..], before[1..], after);
    }
  }

  lemma NormalizeExamples()
    ensures NormalizeHexadecimalPrefix("zF") == "F"
    ensures NormalizeHexadecimalPrefix("zF4") == "F4"
  {
    assert "zF"[1..] == "F" && "F"[1..] == "";
    assert "zF4"[1..] == "F4" && "F4"[1..] == "4" && "4"[1..] == "";
    assert NormalizeHexadecimalPrefix("4") == "4";
    assert NormalizeHexadecimalPrefix("F4") == "F4";
  }

  // ----- the file

  datatype ParseError = LineMissingTab(lineNumber: nat) | LineInvalidPrefix(lineNumber: nat, prefix: string)

  predicate IsBad(line: Line) {
    line.MissingTab? || line.InvalidPrefix?
  }

  /** Line `i` maps `prefix`, and no later line does. */
  predicate IsLastMapping(lines: seq<string>, i: nat, prefix: string) {
    && i < |lines|
    && ClassifyLine(lines[i]).Mapping? && ClassifyLine(lines[i]).prefix == prefix
    && forall j :: i < j < |lines| ==> !(ClassifyLine(lines[j]).Mapping? && ClassifyLine(lines[j]).prefix == prefix)
  }

  /** The table holds exactly the mapped prefixes, each with the vendor of its last line. */
  ghost predicate Represents(prefixes: map<string, string>, lines: seq<string>) {
    && (forall prefix :: prefix in prefixes ==>
          exists i: nat :: IsLastMapping(lines, i, prefix) && prefixes[prefix] == ClassifyLine(lines[i]).vendor)
    && (forall i :: 0 <= i < |lines| && ClassifyLine(lines[i]).Mapping? ==> ClassifyLine(lines[i]).prefix in prefixes)
  }

  lemma RepresentsAppend(prefixes: map<string, string>, lines: seq<string>, raw: string)
    requires Represents(prefixes, lines) && !IsBad(ClassifyLine(raw))
    ensures var line := ClassifyLine(raw);
      Represents(if line.Mapping? then prefixes[line.prefix := line.vendor] else prefixes, lines + [raw])
  {
    hide ClassifyLine;
    var line := ClassifyLine(raw);
    var extended := lines + [raw];
    var after := if line.Mapping? then prefixes[line.prefix := line.vendor] else prefixes;
    forall prefix | prefix in after
      ensures exists i: nat :: IsLastMapping(extended, i, prefix) && after[prefix] == ClassifyLine(extended[i]).vendor
    {
      if line.Mapping? && line.prefix == prefix {
        assert IsLastMapping(extended, |lines|, prefix);
      } else {
        var i: nat :| IsLastMapping(lines, i, prefix) && prefixes[prefix] == ClassifyLine(lines[i]).vendor;
        assert IsLastMapping(extended, i, prefix);
      }
    }
  }

  /** Parsing stops at the first bad line, and otherwise keeps the last line of each prefix. */
  method ParseIeeeOuiText(lines: seq<string>) returns (r: Result<map<string, string>, ParseError>)
    ensures r.Success? ==>
      && (forall i :: 0 <= i < |lines| ==> !IsBad(ClassifyLine(lines[i])))
      && Represents(r.value, lines)
    ensures r.Failure? ==>
      && 1 <= r.error.lineNumber <= |lines|
      && (forall i :: 0 <= i < r.error.lineNumber - 1 ==> !IsBad(ClassifyLine(lines[i])))
      && match ClassifyLine(lines[r.error.lineNumber - 1])
         case InvalidPrefix(prefix) => r.error == LineInvalidPrefix(r.error.lineNumber, prefix)
         case MissingTab => r.error == LineMissingTab(r.error.lineNumber)
         case _ => false
  {
    hide ClassifyLine, Represents;
    var prefixes := map[];
    EmptyRepresents();
    for index := 0 to |lines|
      invariant forall i :: 0 <= i < index ==> !IsBad(ClassifyLine(lines[i]))
      invariant Represents(prefixes, lines[..index])
    {
      var line := ClassifyLine(lines[index]);
      if line.MissingTab? {
        return Failure(LineMissingTab(index + 1));
      }
      if line.InvalidPrefix? {
        return Failure(LineInvalidPrefix(index + 1, line.prefix));
      }
      RepresentsAppend(prefixes, lines[..index], lines[index]);
      assert lines[..index] + [lines[index]] == lines[..index + 1];
      if line.Mapping? {
        prefixes := prefixes[line.prefix := line.vendor];
      }
    }
    assert lines[..|lines|] == lines;
    return Success(prefixes);
  }

  lemma EmptyRepresents()
    ensures Represents(map[], [])
  {
  }

  // ----- lookup

  function HexDigit(n: nat): char
    requires n < 16
  {
    if n < 10 then '0' + n as char else 'A' + (n - 10) as char
  }

  function HexOf(octets: seq<u8>): (hex: string)
    ensures |hex| == 2 * |octets|
  {
    if octets == [] then [] else [HexDigit(octets[0] / 16), HexDigit(octets[0] % 16)] + HexOf(octets[1..])
  }

  /** The 12 upper-case hexadecimal digits of an address. */
  function AddressHex(address: Mac): (hex: string)
    ensures |hex| == 12
  {
    HexOf(address)
  }

  /** The number a hexadecimal digit of either case stands for, and 16 for any other character. */
  function HexValue(c: char): nat {
    if '0' <= c <= '9' then (c - '0') as nat
    else if 'A' <= c <= 'F' then (c - 'A') as nat + 10
    else if 'a' <= c <= 'f' then (c - 'a') as nat + 10
    else 16
  }

  predicate IsUpperHex(s: string) {
    forall i :: 0 <= i < |s| ==> '0' <= s[i] <= '9' || 'A' <= s[i] <= 'F'
  }

  /** The digits are the first ones of the address, two to an octet, high half first. */
  predicate Spells(digits: string, address: Mac) {
    && |digits| <= 12
    && forall i :: 0 <= i < |digits| ==>
         HexValue(digits[i]) == if i % 2 == 0 then address[i / 2] / 16 else address[i / 2] % 16
  }

  lemma {:induction false} HexSpells(octets: seq<u8>)
    ensures IsUpperHex(HexOf(octets))
    ensures forall i :: 0 <= i < |octets| ==>
      HexValue(HexOf(octets)[2 * i]) == octets[i] / 16 && HexValue(HexOf(octets)[2 * i + 1]) == octets[i] % 16
  {
    if octets != [] {
      var hex, rest := HexOf(octets), HexOf(octets[1..]);
      HexSpells(octets[1..]);
      assert hex == [HexDigit(octets[0] / 16), HexDigit(octets[0] % 16)] + rest;
      forall i | 0 < i < |octets|
        ensures HexValue(hex[2 * i]) == octets[i] / 16 && HexValue(hex[2 * i + 1]) == octets[i] % 16
      {
        assert octets[i] == octets[1..][i - 1];
        assert hex[2 * i] == rest[2 * (i - 1)] && hex[2 * i + 1] == rest[2 * (i - 1) + 1];
      }
    }
  }

  /** Every pair of digits of an address is one octet. */
  lemma AddressDigits(address: Mac)
    ensures var hex := AddressHex(address);
      && IsUpperHex(hex) && Spells(hex, address)
      && forall i :: 0 <= i < 6 ==> HexValue(hex[2 * i]) * 16 + HexValue(hex[2 * i + 1]) == address[i]
  {
    HexSpells(address);
    var hex := AddressHex(address);
    forall i | 0 <= i < 12
      ensures HexValue(hex[i]) == if i % 2 == 0 then address[i / 2] / 16 else address[i / 2] % 16
    {
      assert i == if i % 2 == 0 then 2 * (i / 2) else 2 * (i / 2) + 1;
    }
  }

  lemma UpperDigitIsUnique(c: char, d: char)
    requires HexValue(c) == HexValue(d) && IsUpperHex([c]) && IsUpperHex([d])
    ensures c == d
  {
    assert [c][0] == c && [d][0] == d;
  }

  /** A key matches an address: 2 to 12 upper-case digits that spell its beginning. */
  predicate Matches(prefix: string, address: Mac) {
    2 <= |prefix| <= 12 && IsUpperHex(prefix) && Spells(prefix, address)
  }

  /** The digits of an address that are looked up are exactly the matching keys. */
  lemma MatchIsPrefix(prefix: string, address: Mac)
    ensures Matches(prefix, address) <==> 2 <= |prefix| && prefix <= AddressHex(address)
  {
    hide AddressHex, HexValue;
    var hex := AddressHex(address);
    AddressDigits(address);
    if Matches(prefix, address) {
      forall i | 0 <= i < |prefix|
        ensures prefix[i] == hex[i]
      {
        UpperDigitIsUnique(prefix[i], hex[i]);
      }
    }
  }

  /** Addresses are looked up in the spelling that parsing stores, and no two share theirs. */
  lemma {:induction false} HexIsNormalizedAndInjective(octets: seq<u8>, other: seq<u8>)
    requires |octets| == |other|
    ensures NormalizeHexadecimalPrefix(HexOf(octets)) == HexOf(octets)
    ensures HexOf(octets) == HexOf(other) <==> octets == other
    ensures IsUpperHex(HexOf(octets))
    ensures forall i :: 0 <= i < |octets| ==>
      HexValue(HexOf(octets)[2 * i]) * 16 + HexValue(HexOf(octets)[2 * i + 1]) == octets[i]
  {
    HexIsNormalized(octets);
    HexIsInjective(octets, other);
    HexSpells(octets);
  }

  lemma {:induction false} HexIsNormalized(octets: seq<u8>)
    ensures NormalizeHexadecimalPrefix(HexOf(octets)) == HexOf(octets)
  {
    if octets != [] {
      var high, low, rest := HexDigit(octets[0] / 16), HexDigit(octets[0] % 16), HexOf(octets[1..]);
      HexIsNormalized(octets[1..]);
      NormalizedDigit(high, [low] + rest);
      NormalizedDigit(low, rest);
      assert HexOf(octets) == [high] + ([low] + rest);
    }
  }

  lemma NormalizedDigit(c: char, rest: string)
    requires IsHexDigit(c) && ToUpper(c) == c
    ensures NormalizeHexadecimalPrefix([c] + rest) == [c] + NormalizeHexadecimalPrefix(rest)
  {
    assert ([c] + rest)[1..] == rest;
  }

  lemma {:induction false} HexIsInjective(octets: seq<u8>, other: seq<u8>)
    requires |octets| == |other|
    ensures HexOf(octets) == HexOf(other) ==> octets == other
  {
    if octets != [] && HexOf(octets) == HexOf(other) {
      var hex, otherHex := HexOf(octets), HexOf(other);
      assert hex[2..] == HexOf(octets[1..]) && otherHex[2..] == HexOf(other[1..]);
      assert hex[0] == otherHex[0] && hex[1] == otherHex[1];
      HexIsInjective(octets[1..], other[1..]);
      assert octets == [octets[0]] + octets[1..] && other == [other[0]] + other[1..];
    }
  }

  method VendorNameFor(prefixes: map<string, string>, address: Mac) returns (vendor: Option<string>)
    ensures match vendor
      case Some(name) =>
        exists prefix :: prefix in prefixes && Matches(prefix, address) && prefixes[prefix] == name
          && forall other :: other in prefixes && Matches(other, address) ==> |other| <= |prefix|
      case None => forall prefix :: prefix in prefixes ==> !Matches(prefix, address)
  {
    hide AddressHex, Matches;
    var hex := AddressHex(address);
    forall prefix: string
      ensures Matches(prefix, address) ==> 2 <= |prefix| <= 12 && prefix == hex[..|prefix|]
    {
      MatchIsPrefix(prefix, address);
    }
    for n := 13 downto 2
      invariant forall m :: n <= m <= 12 ==> hex[..m] !in prefixes
    {
      if hex[..n] in prefixes {
        vendor := Some(prefixes[hex[..n]]);
        MatchIsPrefix(hex[..n], address);
        return;
      }
    }
    return None;
  }

  /** The line that decides an address: the longest matching prefix, and the last line with it. */
  ghost predicate Decides(lines: seq<string>, i: nat, address: Mac) {
    && i < |lines|
    && ClassifyLine(lines[i]).Mapping?
    && Matches(ClassifyLine(lines[i]).prefix, address)
    && forall j ::
         && 0 <= j < |lines|
         && ClassifyLine(lines[j]).Mapping? && Matches(ClassifyLine(lines[j]).prefix, address) ==>
         || |ClassifyLine(lines[j]).prefix| < |ClassifyLine(lines[i]).prefix|
         || (ClassifyLine(lines[j]).prefix == ClassifyLine(lines[i]).prefix && j <= i)
  }

  lemma SameLengthSamePrefix(a: string, b: string, address: Mac)
    requires Matches(a, address) && Matches(b, address) && |a| == |b|
    ensures a == b
  {
    hide Matches, AddressHex;
    MatchIsPrefix(a, address);
    MatchIsPrefix(b, address);
  }

  /**
   After parsing, a lookup answers with the vendor of the deciding line, and with nothing exactly
   when no mapped prefix matches the address.
   */
  method LookUp(lines: seq<string>, address: Mac) returns (parsed: Result<Option<string>, ParseError>)
    ensures parsed.Success? <==> forall i :: 0 <= i < |lines| ==> !IsBad(ClassifyLine(lines[i]))
    ensures parsed.Success? && parsed.value.Some? ==>
      exists i: nat :: Decides(lines, i, address) && parsed.value.value == ClassifyLine(lines[i]).vendor
    ensures parsed.Success? && parsed.value.None? ==>
      forall i :: 0 <= i < |lines| && ClassifyLine(lines[i]).Mapping? ==>
        !Matches(ClassifyLine(lines[i]).prefix, address)
  {
    hide ClassifyLine, Matches;
    var registry := ParseIeeeOuiText(lines);
    if registry.Failure? {
      assert IsBad(ClassifyLine(lines[registry.error.lineNumber - 1]));
      return Failure(registry.error);
    }
    var prefixes := registry.value;
    var vendor := VendorNameFor(prefixes, address);
    if vendor.Some? {
      ghost var prefix :| prefix in prefixes && Matches(prefix, address) && prefixes[prefix] == vendor.value
        && forall other :: other in prefixes && Matches(other, address) ==> |other| <= |prefix|;
      ghost var i: nat :| IsLastMapping(lines, i, prefix) && prefixes[prefix] == ClassifyLine(lines[i]).vendor;
      forall j | 0 <= j < |lines| && ClassifyLine(lines[j]).Mapping? && Matches(ClassifyLine(lines[j]).prefix, address)
        ensures |ClassifyLine(lines[j]).prefix| < |prefix| || (ClassifyLine(lines[j]).prefix == prefix && j <= i)
      {
        if |ClassifyLine(lines[j]).prefix| == |prefix| {
          SameLengthSamePrefix(ClassifyLine(lines[j]).prefix, prefix, address);
        }
      }
      assert Decides(lines, i, address);
    }
    return Success(vendor);
  }

  // ----- what a line says, character by character

  /** Exactly the characters with Unicode's `White_Space` property. */
  lemma WhitespaceIsExact(c: char)
    ensures IsWhitespace(c)
      <==> c in {
        '\t', '\n', '\U{000B}', '\U{000C}', '\r', ' ', '\U{0085}', '\U{00A0}', '\U{1680}', '\U{2000}', '\U{2001}',
        '\U{2002}', '\U{2003}', '\U{2004}', '\U{2005}', '\U{2006}', '\U{2007}', '\U{2008}', '\U{2009}', '\U{200A}',
        '\U{2028}', '\U{2029}', '\U{202F}', '\U{205F}', '\U{3000}'}
  {
  }

  predicate IsBlank(s: string) {
    forall i :: 0 <= i < |s| ==> IsWhitespace(s[i])
  }

  lemma {:induction false} TrimStartIsExact(s: string) returns (front: string)
    ensures s == front + TrimStart(s) && IsBlank(front)
    ensures TrimStart(s) != [] ==> !IsWhitespace(TrimStart(s)[0])
  {
    hide IsWhitespace;
    front := [];
    if s != [] && IsWhitespace(s[0]) {
      front := TrimStartIsExact(s[1..]);
      front := [s[0]] + front;
    }
  }

  lemma {:induction false} TrimEndIsExact(s: string) returns (back: string)
    ensures s == TrimEnd(s) + back && IsBlank(back)
    ensures TrimEnd(s) != [] ==> !IsWhitespace(TrimEnd(s)[|TrimEnd(s)| - 1])
  {
    hide IsWhitespace;
    back := [];
    if s != [] && IsWhitespace(s[|s| - 1]) {
      back := TrimEndIsExact(s[..|s| - 1]);
      back := back + [s[|s| - 1]];
    }
  }

  /** Trimming takes off all whitespace at both ends and nothing else. */
  lemma TrimIsExact(s: string) returns (front: string, back: string)
    ensures s == front + Trim(s) + back && IsBlank(front) && IsBlank(back)
    ensures Trim(s) != [] ==> !IsWhitespace(Trim(s)[0]) && !IsWhitespace(Trim(s)[|Trim(s)| - 1])
  {
    front := TrimStartIsExact(s);
    back := TrimEndIsExact(TrimStart(s));
    assert Trim(s) != [] ==> Trim(s)[0] == TrimStart(s)[0];
  }

  /** Blank lines and comments are ignored, and of the others exactly those without a tab lack one. */
  lemma LineVerdicts(raw: string)
    ensures ClassifyLine(raw) == Ignored <==> Trim(raw) == [] || Trim(raw)[0] == '#'
    ensures ClassifyLine(raw) == MissingTab <==> Trim(raw) != [] && Trim(raw)[0] != '#' && '\t' !in Trim(raw)
  {
    hide Trim, SplitOnce;
    SplitOnceRejoins(Trim(raw), '\t');
  }

  /** Normalizing keeps the digits of a field, in order and in upper case, and drops everything else. */
  lemma {:induction false} NormalizeIsExact(field: string, more: string, c: char)
    ensures NormalizeHexadecimalPrefix(field + more)
      == NormalizeHexadecimalPrefix(field) + NormalizeHexadecimalPrefix(more)
    ensures NormalizeHexadecimalPrefix([c]) != [] <==> HexValue(c) < 16
    ensures HexValue(c) < 16 ==>
      var digit := NormalizeHexadecimalPrefix([c]);
      |digit| == 1 && IsUpperHex(digit) && HexValue(digit[0]) == HexValue(c)
  {
    assert [c][1..] == [];
    if field == [] {
      assert field + more == more;
    } else {
      assert (field + more)[1..] == field[1..] + more;
      NormalizeIsExact(field[1..], more, c);
    }
  }

  lemma {:induction false} NormalizedDigits(field: string)
    requires forall i :: 0 <= i < |field| ==> HexValue(field[i]) < 16
    ensures var digits := NormalizeHexadecimalPrefix(field);
      && |digits| == |field| && IsUpperHex(digits)
      && forall i :: 0 <= i < |field| ==> HexValue(digits[i]) == HexValue(field[i])
  {
    hide HexValue;
    if field != [] {
      var before, last := field[..|field| - 1], field[|field| - 1];
      assert field == before + [last];
      NormalizedDigits(before);
      NormalizeIsExact(before, [last], last);
    }
  }

  /**
   A line of digits in either letter case, a tab and a vendor maps those digits, and it matches exactly
   the addresses whose first digits it spells.
   */
  lemma WrittenPrefixMatches(digits: string, vendor: string, address: Mac)
    requires 2 <= |digits| <= 12 && forall i :: 0 <= i < |digits| ==> HexValue(digits[i]) < 16
    requires vendor != [] && !IsWhitespace(vendor[0]) && !IsWhitespace(vendor[|vendor| - 1])
    ensures var line := ClassifyLine(digits + "\t" + vendor);
      && line.Mapping? && line.vendor == vendor
      && (Matches(line.prefix, address) <==> Spells(digits, address))
  {
    hide SplitOnce, NormalizeHexadecimalPrefix, HexValue;
    var raw := digits + "\t" + vendor;
    DigitsAreInk(digits);
    assert raw[|raw| - 1] == vendor[|vendor| - 1] && raw[0] == digits[0];
    assert Trim(raw) == raw && Trim(vendor) == vendor;
    SplitIsUnique(raw, digits, vendor);
    NormalizedDigits(digits);
    NormalizedIsHex(digits);
  }

  lemma DigitsAreInk(digits: string)
    requires forall i :: 0 <= i < |digits| ==> HexValue(digits[i]) < 16
    ensures forall i :: 0 <= i < |digits| ==> !IsWhitespace(digits[i]) && digits[i] != '#' && digits[i] != '\t'
  {
  }
}
