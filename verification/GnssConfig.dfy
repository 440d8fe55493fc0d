/** The GNSS receiver configuration: the key-value list built by common/gnss-config.c, the
    overrides of src/gnss.c, and the comparison with the receiver's RAM. The item tables and
    value parsers of the ubloxcfg library are parameters. */
module GnssConfig {
  import opened Common

  /** UBLOXCFG_KEYVAL_t: an item id and the raw value. */
  datatype KeyVal = KeyVal(id: nat, raw: nat)

  datatype Port = Port(baudrateId: nat, inProt: seq<(string, nat)>, outProt: seq<(string, nat)>)

  /** What the library knows: named and hexadecimal items with their values, the five items of
      an output message (a missing one is None), rate values, and the port table. */
  datatype Catalogue = Catalogue(
    named: (string, string) -> Option<KeyVal>,
    hex: (string, string) -> Option<KeyVal>,
    rateItems: string -> Option<seq<Option<nat>>>,
    rateValue: (nat, string) -> Option<nat>,
    port: string -> Option<Port>)

  // ------------------------------------------------------------ text

  predicate HasPrefix(s: string, p: string) {
    |p| <= |s| && s[..|p|] == p
  }

  /** strtok over the whole of s: the maximal runs of characters that are not separators. */
  function Tokens(s: string, seps: string): (t: seq<string>)
    ensures forall i :: 0 <= i < |t| ==> t[i] != []
    decreases |s|
  {
    if s == [] then []
    else if s[0] in seps then Tokens(s[1..], seps)
    else
      var n := RunLength(s, seps);
      [s[..n]] + Tokens(s[n..], seps)
  }

  /** The number of leading characters that are not separators. */
  function RunLength(s: string, seps: string): (n: nat)
    ensures n <= |s| && (s != [] && s[0] !in seps ==> n > 0)
    ensures n < |s| ==> s[n] in seps
    ensures forall i :: 0 <= i < n ==> s[i] !in seps
  {
    if s == [] || s[0] in seps then 0 else 1 + RunLength(s[1..], seps)
  }

  predicate Word(w: string, seps: string) {
    w != [] && forall c :: c in w ==> c !in seps
  }

  /** Words with separators before, between and after them. */
  function Spaced(words: seq<string>, gaps: seq<string>): string
    requires |gaps| == |words| + 1
  {
    gaps[0] + (if words == [] then [] else words[0] + Spaced(words[1..], gaps[1..]))
  }

  /** Only separators stand around the words, and at least one between two of them. */
  predicate Gaps(gaps: seq<string>, seps: string) {
    && (forall i :: 0 <= i < |gaps| ==> forall c :: c in gaps[i] ==> c in seps)
    && (forall i :: 0 < i < |gaps| - 1 ==> gaps[i] != [])
  }

  lemma {:induction false} RunLengthOfWord(w: string, rest: string, seps: string)
    requires forall c :: c in w ==> c !in seps
    requires rest == [] || rest[0] in seps
    ensures RunLength(w + rest, seps) == |w|
    decreases |w|
  {
    if w == [] {
      assert w + rest == rest;
    } else {
      assert w[0] in w && (w + rest)[1..] == w[1..] + rest;
      RunLengthOfWord(w[1..], rest, seps);
    }
  }

  lemma {:induction false} TokensSkip(gap: string, rest: string, seps: string)
    requires forall c :: c in gap ==> c in seps
    ensures Tokens(gap + rest, seps) == Tokens(rest, seps)
    decreases |gap|
  {
    if gap == [] {
      assert gap + rest == rest;
    } else {
      assert gap[0] in gap && (gap + rest)[1..] == gap[1..] + rest;
      TokensSkip(gap[1..], rest, seps);
    }
  }

  lemma TokensOfWord(w: string, rest: string, seps: string)
    requires Word(w, seps) && (rest == [] || rest[0] in seps)
    ensures Tokens(w + rest, seps) == [w] + Tokens(rest, seps)
  {
    assert w[0] in w;
    RunLengthOfWord(w, rest, seps);
    assert (w + rest)[|w|..] == rest && (w + rest)[..|w|] == w;
  }

  /** Tokenising undoes spacing: it finds just the words that were written, whatever runs of
      separators stand before, between and after them. */
  lemma {:induction false} TokensOfSpaced(words: seq<string>, gaps: seq<string>, seps: string)
    requires |gaps| == |words| + 1 && Gaps(gaps, seps)
    requires forall i :: 0 <= i < |words| ==> Word(words[i], seps)
    ensures Tokens(Spaced(words, gaps), seps) == words
    decreases |words|
  {
    if words == [] {
      TokensSkip(gaps[0], [], seps);
    } else {
      var rest := Spaced(words[1..], gaps[1..]);
      TokensOfSpaced(words[1..], gaps[1..], seps);
      assert rest == [] || rest[0] in seps by {
        if gaps[1] != [] {
          assert gaps[1][0] in gaps[1];
        }
      }
      TokensSkip(gaps[0], words[0] + rest, seps);
      TokensOfWord(words[0], rest, seps);
    }
  }

  /** The text is these words with these gaps around them. */
  ghost predicate Spells(s: string, words: seq<string>, gaps: seq<string>, seps: string) {
    && |gaps| == |words| + 1 && Gaps(gaps, seps) && Spaced(words, gaps) == s
    && (forall i :: 0 <= i < |words| ==> Word(words[i], seps))
    && (s != [] && s[0] in seps ==> gaps[0] != [])
  }

  lemma SpellsSeparator(c: char, s: string, words: seq<string>, g: seq<string>, seps: string)
    requires Spells(s, words, g, seps) && c in seps
    ensures Spells([c] + s, words, [[c] + g[0]] + g[1..], seps)
  {
    var gaps := [[c] + g[0]] + g[1..];
    assert gaps[1..] == g[1..];
    var tail := if words == [] then [] else words[0] + Spaced(words[1..], g[1..]);
    assert ([c] + g[0]) + tail == [c] + (g[0] + tail);
  }

  lemma SpellsWord(w: string, s: string, words: seq<string>, g: seq<string>, seps: string)
    requires Spells(s, words, g, seps) && Word(w, seps) && (s == [] || s[0] in seps)
    ensures Spells(w + s, [w] + words, [[]] + g, seps)
  {
    assert ([[]] + g)[1..] == g && ([w] + words)[1..] == words;
    assert [] + (w + s) == w + s;
    assert w[0] in w;
  }

  /** Every text is its tokens with such gaps around them, so the tokens are determined. */
  lemma {:induction false} TextIsSpacedTokens(s: string, seps: string) returns (gaps: seq<string>)
    ensures Spells(s, Tokens(s, seps), gaps, seps)
    decreases |s|
  {
    if s == [] {
      gaps := [[]];
    } else if s[0] in seps {
      var g := TextIsSpacedTokens(s[1..], seps);
      SpellsSeparator(s[0], s[1..], Tokens(s[1..], seps), g, seps);
      gaps := [[s[0]] + g[0]] + g[1..];
      assert s == [s[0]] + s[1..];
    } else {
      var n := RunLength(s, seps);
      var g := TextIsSpacedTokens(s[n..], seps);
      assert Word(s[..n], seps);
      SpellsWord(s[..n], s[n..], Tokens(s[n..], seps), g, seps);
      gaps := [[]] + g;
      assert s == s[..n] + s[n..];
    }
  }

  const FIELD_SEP: string := " \t"
  const PART_SEP: string := ","
  const MAX_LINE: nat := 127

  /** The part of a line that fits in the line buffer. */
  function Clip(line: string): (r: string)
    ensures r <= line && |r| <= 127 && (|line| <= 127 ==> r == line) && (|line| > 127 ==> |r| == 127)
  {
    if |line| <= MAX_LINE then line else line[..MAX_LINE]
  }

  // ------------------------------------------------- what a line asks for

  /** Concatenation of two optional lists. */
  function Join(a: Option<seq<KeyVal>>, b: Option<seq<KeyVal>>): Option<seq<KeyVal>> {
    if a.None? || b.None? then None else Some(a.value + b.value)
  }

  function One(kv: Option<KeyVal>): Option<seq<KeyVal>> {
    if kv.None? then None else Some([kv.value])
  }

  function BaudValue(s: string): Option<nat> {
    if s == "9600" then Some(9600) else if s == "19200" then Some(19200)
    else if s == "38400" then Some(38400) else if s == "57600" then Some(57600)
    else if s == "115200" then Some(115200) else if s == "230400" then Some(230400)
    else if s == "460800" then Some(460800) else if s == "921600" then Some(921600)
    else None
  }

  /** A field that is not "-": the first character differs and there is a second one. */
  predicate Given(field: string) {
    |field| > 1 && field[0] != '-'
  }

  function Rates(cat: Catalogue, items: seq<Option<nat>>, rates: seq<string>): Option<seq<KeyVal>>
    requires |items| == |rates|
  {
    if items == [] then Some([])
    else
      var rest := Rates(cat, items[1..], rates[1..]);
      if rates[0] == "-" then rest
      else if items[0].None? then None
      else
        var v := cat.rateValue(items[0].value, rates[0]);
        Join(if v.None? then None else Some([KeyVal(items[0].value, v.value)]), rest)
  }

  /** The id of the first entry with this name. */
  function FilterId(table: seq<(string, nat)>, name: string): (r: Option<nat>)
    ensures r.None? <==> forall i :: 0 <= i < |table| ==> table[i].0 != name
    ensures r.Some? ==> exists i :: 0 <= i < |table| && table[i] == (name, r.value)
                                    && forall j :: 0 <= j < i ==> table[j].0 != name
  {
    if table == [] then None
    else if table[0].0 == name then Some(table[0].1)
    else FilterId(table[1..], name)
  }

  /** One part of a protocol filter; a leading ! disables the protocol. */
  function FilterPart(part: string, table: seq<(string, nat)>): Option<KeyVal>
    requires part != []
  {
    var enabled := part[0] != '!';
    var id := FilterId(table, if enabled then part else part[1..]);
    if id.None? then None else Some(KeyVal(id.value, if enabled then 1 else 0))
  }

  function FilterParts(parts: seq<string>, table: seq<(string, nat)>): Option<seq<KeyVal>>
    requires forall i :: 0 <= i < |parts| ==> parts[i] != []
  {
    if parts == [] then Some([])
    else Join(One(FilterPart(parts[0], table)), FilterParts(parts[1..], table))
  }

  function Protfilt(field: string, table: seq<(string, nat)>): Option<seq<KeyVal>> {
    if Given(field) then FilterParts(Tokens(field, PART_SEP), table) else Some([])
  }

  function Baud(port: Port, field: string): Option<seq<KeyVal>> {
    if !Given(field) then Some([])
    else if port.baudrateId == 0 || BaudValue(field).None? then None
    else Some([KeyVal(port.baudrateId, BaudValue(field).value)])
  }

  datatype Kind = NamedKind | HexKind | RateKind | PortKind | UnknownKind

  function KindOf(line: string): Kind {
    if HasPrefix(line, "CFG-") then NamedKind
    else if HasPrefix(line, "0x") then HexKind
    else if HasPrefix(line, "UBX-") || HasPrefix(line, "NMEA-") || HasPrefix(line, "RTCM-") then RateKind
    else if HasPrefix(line, "UART1") || HasPrefix(line, "UART2") || HasPrefix(line, "SPI ")
         || HasPrefix(line, "I2C ") || HasPrefix(line, "USB ") then PortKind
    else UnknownKind
  }

  /** The key-value pairs a line stands for, or None for a line that is refused. */
  function Wanted(cat: Catalogue, line: string): Option<seq<KeyVal>> {
    var t := Tokens(line, FIELD_SEP);
    match KindOf(line)
    case NamedKind => if |t| != 2 then None else One(cat.named(t[0], t[1]))
    case HexKind => if |t| != 2 then None else One(cat.hex(t[0], t[1]))
    case RateKind =>
      if |t| < 6 then None
      else
        var items := cat.rateItems(t[0]);
        if items.None? || |items.value| != 5 then None else Rates(cat, items.value, t[1..6])
    case PortKind =>
      if |t| < 4 then None
      else
        var port := cat.port(t[0]);
        if port.None? then None
        else Join(Baud(port.value, t[1]), Join(Protfilt(t[2], port.value.inProt), Protfilt(t[3], port.value.outProt)))
    case UnknownKind => None
  }

  function WantedAll(cat: Catalogue, lines: seq<string>): Option<seq<KeyVal>> {
    if lines == [] then Some([])
    else Join(Wanted(cat, Clip(lines[0])), WantedAll(cat, lines[1..]))
  }

  // -------------------------------------------------- what lines mean

  /** The first character of the text that follows a word: a separator, or none. */
  lemma LineStart(fields: seq<string>, gaps: seq<string>, seps: string)
    requires |gaps| == |fields| + 1 && |fields| >= 2 && Gaps(gaps, seps) && gaps[0] == []
    ensures
      var line := Spaced(fields, gaps);
      && |line| > |fields[0]| && line[..|fields[0]|] == fields[0] && line[|fields[0]|] == gaps[1][0]
  {
    var rest := Spaced(fields[1..], gaps[1..]);
    assert Spaced(fields, gaps) == fields[0] + rest;
    assert gaps[1] != [] && rest[0] == gaps[1][0];
  }

  lemma PrefixChars(s: string, p: string)
    ensures HasPrefix(s, p) <==> |p| <= |s| && forall k :: 0 <= k < |p| ==> s[k] == p[k]
  {
    if |p| <= |s| && forall k :: 0 <= k < |p| ==> s[k] == p[k] {
      assert s[..|p|] == p;
    }
    if HasPrefix(s, p) {
      assert forall k :: 0 <= k < |p| ==> s[..|p|][k] == p[k];
    }
  }

  /** Two prefixes that differ somewhere exclude each other. */
  lemma OnePrefix(s: string, p: string, q: string, k: nat)
    requires HasPrefix(s, p) && k < |p| && k < |q| && p[k] != q[k]
    ensures !HasPrefix(s, q)
  {
    PrefixChars(s, p);
    PrefixChars(s, q);
  }

  lemma KindOfItem(line: string)
    ensures HasPrefix(line, "CFG-") ==> KindOf(line).NamedKind?
    ensures HasPrefix(line, "0x") ==> KindOf(line).HexKind?
  {
    if HasPrefix(line, "0x") {
      OnePrefix(line, "0x", "CFG-", 0);
    }
  }

  lemma KindOfRate(line: string, p: string)
    requires p == "UBX-" || p == "NMEA-" || p == "RTCM-"
    ensures HasPrefix(line, p) ==> KindOf(line).RateKind?
  {
    if HasPrefix(line, p) {
      OnePrefix(line, p, "CFG-", 0);
      OnePrefix(line, p, "0x", 0);
    }
  }

  lemma NotEarlierKind(line: string, p: string)
    requires HasPrefix(line, p) && |p| >= 2 && p[0] != 'C' && p[0] != '0' && p[0] != 'N' && p[0] != 'R' && p[1] != 'B'
    ensures KindOf(line).PortKind? || KindOf(line).UnknownKind?
  {
    OnePrefix(line, p, "CFG-", 0);
    OnePrefix(line, p, "0x", 0);
    OnePrefix(line, p, "UBX-", 1);
    OnePrefix(line, p, "NMEA-", 0);
    OnePrefix(line, p, "RTCM-", 0);
  }

  lemma KindOfUart(line: string, p: string)
    requires p == "UART1" || p == "UART2"
    ensures HasPrefix(line, p) ==> KindOf(line).PortKind?
  {
    if HasPrefix(line, p) {
      NotEarlierKind(line, p);
    }
  }

  /** The other ports need a space, where any separator does after the others' names. */
  lemma KindOfBus(line: string, p: string)
    requires (p == "SPI" || p == "I2C" || p == "USB") && HasPrefix(line, p) && |line| > 3
    ensures KindOf(line) == if line[3] == ' ' then PortKind else UnknownKind
  {
    NotEarlierKind(line, p);
    PrefixChars(line, p);
    PrefixChars(line, p + " ");
    if line[3] != ' ' {
      PrefixChars(line, "UART1");
      PrefixChars(line, "UART2");
      PrefixChars(line, "SPI ");
      PrefixChars(line, "I2C ");
      PrefixChars(line, "USB ");
    }
  }

  lemma PrefixOfField(line: string, name: string, p: string)
    requires HasPrefix(line, name) && HasPrefix(name, p)
    ensures HasPrefix(line, p)
  {
    PrefixChars(line, name);
    PrefixChars(name, p);
    PrefixChars(line, p);
  }

  ghost predicate Fields(fields: seq<string>, gaps: seq<string>) {
    && |gaps| == |fields| + 1 && |fields| >= 2 && Gaps(gaps, FIELD_SEP) && gaps[0] == []
    && forall i :: 0 <= i < |fields| ==> Word(fields[i], FIELD_SEP)
  }

  /** A named or hexadecimal item with its value, and nothing else on the line. */
  lemma ItemLine(cat: Catalogue, fields: seq<string>, gaps: seq<string>)
    requires Fields(fields, gaps)
    ensures HasPrefix(fields[0], "CFG-") ==>
              Wanted(cat, Spaced(fields, gaps)) == if |fields| == 2 then One(cat.named(fields[0], fields[1])) else None
    ensures HasPrefix(fields[0], "0x") ==>
              Wanted(cat, Spaced(fields, gaps)) == if |fields| == 2 then One(cat.hex(fields[0], fields[1])) else None
  {
    var line := Spaced(fields, gaps);
    LineStart(fields, gaps, FIELD_SEP);
    TokensOfSpaced(fields, gaps, FIELD_SEP);
    KindOfItem(line);
    if HasPrefix(fields[0], "CFG-") {
      PrefixOfField(line, fields[0], "CFG-");
    }
    if HasPrefix(fields[0], "0x") {
      PrefixOfField(line, fields[0], "0x");
    }
  }

  /** A message with its five rates; what follows them is ignored. */
  lemma RateLine(cat: Catalogue, fields: seq<string>, gaps: seq<string>, p: string)
    requires Fields(fields, gaps)
    requires (p == "UBX-" || p == "NMEA-" || p == "RTCM-") && HasPrefix(fields[0], p)
    ensures
      var items := cat.rateItems(fields[0]);
      Wanted(cat, Spaced(fields, gaps)) ==
      if |fields| < 6 || items.None? || |items.value| != 5 then None else Rates(cat, items.value, fields[1..6])
  {
    LineStart(fields, gaps, FIELD_SEP);
    TokensOfSpaced(fields, gaps, FIELD_SEP);
    PrefixOfField(Spaced(fields, gaps), fields[0], p);
    KindOfRate(Spaced(fields, gaps), p);
  }

  /** A port with its baud rate and its two filters, in this order; after the name of a bus a
      space has to stand, or the line is refused. */
  lemma PortLine(cat: Catalogue, fields: seq<string>, gaps: seq<string>)
    requires Fields(fields, gaps)
    requires fields[0] in {"UART1", "UART2", "SPI", "I2C", "USB"}
    ensures
      var port, bus := cat.port(fields[0]), fields[0] in {"SPI", "I2C", "USB"};
      Wanted(cat, Spaced(fields, gaps)) ==
      if |fields| < 4 || port.None? || (bus && gaps[1][0] != ' ') then None
      else Join(Baud(port.value, fields[1]),
                Join(Protfilt(fields[2], port.value.inProt), Protfilt(fields[3], port.value.outProt)))
  {
    LineStart(fields, gaps, FIELD_SEP);
    TokensOfSpaced(fields, gaps, FIELD_SEP);
    if fields[0] in {"SPI", "I2C", "USB"} {
      KindOfBus(Spaced(fields, gaps), fields[0]);
    } else {
      KindOfUart(Spaced(fields, gaps), fields[0]);
    }
  }

  /** "-" leaves a port's rate alone; every other rate needs an item and a value that the library
      can read, and stands for that item with that value. */
  lemma {:induction false} RatesMean(cat: Catalogue, items: seq<Option<nat>>, rates: seq<string>)
    requires |items| == |rates|
    ensures
      var r := Rates(cat, items, rates);
      && (r.Some? <==> forall i :: 0 <= i < |rates| && rates[i] != "-" ==>
                         items[i].Some? && cat.rateValue(items[i].value, rates[i]).Some?)
      && (r.Some? ==> forall kv :: kv in r.value <==>
            exists i :: 0 <= i < |rates| && rates[i] != "-"
                        && kv == KeyVal(items[i].value, cat.rateValue(items[i].value, rates[i]).value))
    decreases |items|
  {
    if items != [] {
      RatesMean(cat, items[1..], rates[1..]);
      assert forall i :: 0 <= i < |rates| - 1 ==> rates[i + 1] == rates[1..][i] && items[i + 1] == items[1..][i];
      assert forall i :: 1 <= i < |rates| ==> rates[i] == rates[1..][i - 1] && items[i] == items[1..][i - 1];
    }
  }

  /** The number a string of digits stands for, continuing from n. */
  function Number(s: string, n: int): int {
    if s == [] then n else Number(s[1..], 10 * n + (s[0] as int - '0' as int))
  }

  function Digit(s: string, i: int): int
    requires 0 <= i < |s|
  {
    s[i] as int - '0' as int
  }

  lemma FourDigits(s: string, n: int)
    requires |s| == 4
    ensures Number(s, n) == 10000 * n + 1000 * Digit(s, 0) + 100 * Digit(s, 1) + 10 * Digit(s, 2) + Digit(s, 3)
  {
    var a, b, c := s[1..], s[2..], s[3..];
    assert a[1..] == b && b[1..] == c && c[1..] == [];
    var n1 := 10 * n + Digit(s, 0);
    var n2 := 10 * n1 + Digit(s, 1);
    var n3 := 10 * n2 + Digit(s, 2);
    assert Number(s, n) == Number(a, n1) == Number(b, n2) == Number(c, n3) == 10 * n3 + Digit(s, 3);
  }

  /** A rate is read as the number that is written, and it is one of these eight. */
  lemma BaudRates(s: string)
    ensures BaudValue(s).Some? <==>
              s in {"9600", "19200", "38400", "57600", "115200", "230400", "460800", "921600"}
    ensures BaudValue(s).Some? ==> BaudValue(s).value == Number(s, 0)
  {
    if BaudValue(s).Some? {
      if |s| == 4 {
        FourDigits(s, 0);
      } else if |s| == 5 {
        FourDigits(s[1..], Digit(s, 0));
      } else {
        assert s[1..][1..] == s[2..];
        FourDigits(s[2..], 10 * Digit(s, 0) + Digit(s, 1));
      }
    }
  }

  /** "-", or any other single character, leaves the baud rate alone; otherwise the port must
      have one and the field must be one of the eight. */
  lemma BaudMeans(port: Port, field: string)
    requires field != []
    ensures
      var r := Baud(port, field);
      if |field| == 1 || field[0] == '-' then r == Some([])
      else if port.baudrateId != 0 && BaudValue(field).Some? then
        r == Some([KeyVal(port.baudrateId, BaudValue(field).value)])
      else r == None
  {
  }

  /** A protocol of a filter, and how it is written. */
  datatype Protocol = Protocol(name: string, enabled: bool)

  function Written(p: Protocol): (r: string)
    ensures p.name != [] ==> r != []
  {
    if p.enabled then p.name else "!" + p.name
  }

  function AllWritten(ps: seq<Protocol>): (r: seq<string>)
    ensures |r| == |ps| && forall i :: 0 <= i < |ps| ==> r[i] == Written(ps[i])
    ensures (forall i :: 0 <= i < |ps| ==> ProperName(ps[i].name)) ==> forall i :: 0 <= i < |ps| ==> r[i] != []
  {
    if ps == [] then [] else [Written(ps[0])] + AllWritten(ps[1..])
  }

  predicate ProperName(name: string) {
    name != [] && name[0] != '!' && ',' !in name
  }

  /** The pairs for a list of protocols: 1 to enable, 0 to disable, under the id of the name. */
  function ProtocolPairs(ps: seq<Protocol>, table: seq<(string, nat)>): Option<seq<KeyVal>> {
    if ps == [] then Some([])
    else if FilterId(table, ps[0].name).None? then None
    else Join(Some([KeyVal(FilterId(table, ps[0].name).value, if ps[0].enabled then 1 else 0)]),
              ProtocolPairs(ps[1..], table))
  }

  lemma {:induction false} PartsMean(ps: seq<Protocol>, table: seq<(string, nat)>)
    requires forall i :: 0 <= i < |ps| ==> ProperName(ps[i].name)
    ensures FilterParts(AllWritten(ps), table) == ProtocolPairs(ps, table)
    decreases |ps|
  {
    if ps != [] {
      assert ProperName(ps[0].name);
      assert AllWritten(ps)[0] == Written(ps[0]) && AllWritten(ps)[1..] == AllWritten(ps[1..]);
      assert !ps[0].enabled ==> Written(ps[0])[1..] == ps[0].name;
      PartsMean(ps[1..], table);
    }
  }

  /** A filter written as a list of protocols, with any commas around them, asks for just these;
      one that starts with "-" or has a single character asks for nothing. */
  lemma ProtfiltMeans(ps: seq<Protocol>, gaps: seq<string>, table: seq<(string, nat)>)
    requires |gaps| == |ps| + 1 && Gaps(gaps, PART_SEP)
    requires forall i :: 0 <= i < |ps| ==> ProperName(ps[i].name)
    ensures
      var field := Spaced(AllWritten(ps), gaps);
      Protfilt(field, table) ==
      if |field| <= 1 || field[0] == '-' then Some([]) else ProtocolPairs(ps, table)
  {
    forall i | 0 <= i < |ps|
      ensures Word(AllWritten(ps)[i], PART_SEP)
    {
      assert ProperName(ps[i].name);
    }
    TokensOfSpaced(AllWritten(ps), gaps, PART_SEP);
    PartsMean(ps, table);
  }

  /** The meaning of a file is that of its lines, in order. */
  lemma {:induction false} WantedAllSnoc(cat: Catalogue, lines: seq<string>, line: string)
    ensures WantedAll(cat, lines + [line]) == Join(WantedAll(cat, lines), Wanted(cat, Clip(line)))
    decreases |lines|
  {
    var w := Wanted(cat, Clip(line));
    if lines == [] {
      assert lines + [line] == [line] && [line][1..] == [];
      JoinUnits(w);
    } else {
      assert (lines + [line])[1..] == lines[1..] + [line];
      WantedAllSnoc(cat, lines[1..], line);
      JoinAssociative(Wanted(cat, Clip(lines[0])), WantedAll(cat, lines[1..]), w);
    }
  }

  // ---------------------------------------------------------- the database

  ghost predicate Distinct(kv: seq<KeyVal>) {
    forall i, j :: 0 <= i < j < |kv| ==> kv[i].id != kv[j].id
  }

  ghost predicate Fits(kv: seq<KeyVal>, max: nat) {
    |kv| <= max && Distinct(kv)
  }

  lemma FitsPrefix(a: seq<KeyVal>, b: seq<KeyVal>, max: nat)
    requires Fits(a + b, max)
    ensures Fits(a, max)
  {
    assert forall i :: 0 <= i < |a| ==> (a + b)[i] == a[i];
  }

  /** Some pairs were asked for on top of the list before; ok says whether all of them went in. */
  ghost predicate Added(before: seq<KeyVal>, after: seq<KeyVal>, max: nat, ok: bool, wanted: Option<seq<KeyVal>>) {
    var all := Join(Some(before), wanted);
    if ok then all == Some(after) && Fits(after, max)
    else all.None? || !Fits(all.value, max)
  }

  lemma JoinAssociative(a: Option<seq<KeyVal>>, b: Option<seq<KeyVal>>, c: Option<seq<KeyVal>>)
    ensures Join(Join(a, b), c) == Join(a, Join(b, c))
  {
    if a.Some? && b.Some? && c.Some? {
      assert (a.value + b.value) + c.value == a.value + (b.value + c.value);
    }
  }

  lemma JoinUnits(a: Option<seq<KeyVal>>)
    ensures Join(a, Some([])) == a && Join(Some([]), a) == a
  {
    if a.Some? {
      assert a.value + [] == a.value && [] + a.value == a.value;
    }
  }

  /** Adding the first part of what is wanted: success leaves the rest to add, failure is the
      failure of the whole. */
  lemma AddedFirst(before: seq<KeyVal>, after: seq<KeyVal>, max: nat, ok: bool,
                   first: Option<seq<KeyVal>>, rest: Option<seq<KeyVal>>)
    requires Added(before, after, max, ok, first)
    ensures ok ==> Join(Some(before), Join(first, rest)) == Join(Some(after), rest)
    ensures !ok ==> Added(before, after, max, false, Join(first, rest))
  {
    JoinAssociative(Some(before), first, rest);
    if !ok && first.Some? && rest.Some? && Fits((before + first.value) + rest.value, max) {
      FitsPrefix(before + first.value, rest.value, max);
    }
  }

  /** The loop of _cfgDbApplyProtfilt that looks a protocol up. */
  method FindFilter(table: seq<(string, nat)>, name: string) returns (id: Option<nat>)
    ensures id == FilterId(table, name)
  {
    var ix := 0;
    while ix < |table|
      invariant 0 <= ix <= |table| && FilterId(table, name) == FilterId(table[ix..], name)
    {
      if table[ix].0 == name {
        return Some(table[ix].1);
      }
      ix := ix + 1;
    }
    return None;
  }

  class CfgDb {
    var kv: seq<KeyVal>
    const maxKv: nat

    constructor (max: nat)
      ensures kv == [] && maxKv == max
    {
      kv, maxKv := [], max;
    }

    /** _cfgDbAddKeyVal */
    method AddKeyVal(id: nat, raw: nat) returns (ok: bool)
      requires Fits(kv, maxKv)
      modifies this
      ensures Added(old(kv), kv, maxKv, ok, Some([KeyVal(id, raw)]))
      ensures !ok ==> kv == old(kv)
    {
      if |kv| >= maxKv {
        return false;
      }
      var ix := 0;
      while ix < |kv|
        invariant 0 <= ix <= |kv| && kv == old(kv)
        invariant forall i :: 0 <= i < ix ==> kv[i].id != id
      {
        if kv[ix].id == id {
          ghost var more := kv + [KeyVal(id, raw)];
          assert more[ix].id == more[|kv|].id;
          return false;
        }
        ix := ix + 1;
      }
      kv := kv + [KeyVal(id, raw)];
      return true;
    }

    /** _cfgDbApplyProtfilt, on the parts strtok finds. */
    method ApplyProtfilt(parts: seq<string>, table: seq<(string, nat)>) returns (ok: bool)
      requires Fits(kv, maxKv)
      requires forall i :: 0 <= i < |parts| ==> parts[i] != []
      modifies this
      ensures Added(old(kv), kv, maxKv, ok, FilterParts(parts, table))
    {
      ghost var all := Join(Some(kv), FilterParts(parts, table));
      var i := 0;
      assert parts[0..] == parts;
      while i < |parts|
        invariant 0 <= i <= |parts| && Fits(kv, maxKv)
        invariant Join(Some(kv), FilterParts(parts[i..], table)) == all
      {
        assert parts[i..][0] == parts[i] && parts[i..][1..] == parts[i + 1..];
        ghost var before, rest := kv, FilterParts(parts[i + 1..], table);
        var enabled := parts[i][0] != '!';
        var id := FindFilter(table, if enabled then parts[i] else parts[i][1..]);
        if id.None? {
          return false;
        }
        ok := AddKeyVal(id.value, if enabled then 1 else 0);
        AddedFirst(before, kv, maxKv, ok, One(FilterPart(parts[i], table)), rest);
        if !ok {
          return;
        }
        i := i + 1;
      }
      JoinUnits(Some(kv));
      return true;
    }

    /** The output message rates of one line. */
    method AddRates(cat: Catalogue, items: seq<Option<nat>>, rates: seq<string>) returns (ok: bool)
      requires Fits(kv, maxKv) && |items| == |rates|
      modifies this
      ensures Added(old(kv), kv, maxKv, ok, Rates(cat, items, rates))
    {
      ghost var all := Join(Some(kv), Rates(cat, items, rates));
      var i := 0;
      assert items[0..] == items && rates[0..] == rates;
      while i < |items|
        invariant 0 <= i <= |items| && Fits(kv, maxKv)
        invariant Join(Some(kv), Rates(cat, items[i..], rates[i..])) == all
      {
        assert items[i..][0] == items[i] && items[i..][1..] == items[i + 1..];
        assert rates[i..][0] == rates[i] && rates[i..][1..] == rates[i + 1..];
        ghost var before, rest := kv, Rates(cat, items[i + 1..], rates[i + 1..]);
        if rates[i] == "-" {
          i := i + 1;
          continue;
        }
        if items[i].None? {
          return false;
        }
        var v := cat.rateValue(items[i].value, rates[i]);
        if v.None? {
          return false;
        }
        ok := AddKeyVal(items[i].value, v.value);
        AddedFirst(before, kv, maxKv, ok, Some([KeyVal(items[i].value, v.value)]), rest);
        if !ok {
          return;
        }
        i := i + 1;
      }
      JoinUnits(Some(kv));
      return true;
    }

    /** One protocol filter field of a port line. */
    method AddFilter(field: string, table: seq<(string, nat)>) returns (ok: bool)
      requires Fits(kv, maxKv)
      modifies this
      ensures Added(old(kv), kv, maxKv, ok, Protfilt(field, table))
    {
      if Given(field) {
        ok := ApplyProtfilt(Tokens(field, PART_SEP), table);
      } else {
        JoinUnits(Some(kv));
        ok := true;
      }
    }

    method AddBaud(port: Port, field: string) returns (ok: bool)
      requires Fits(kv, maxKv)
      modifies this
      ensures Added(old(kv), kv, maxKv, ok, Baud(port, field))
    {
      if port.baudrateId != 0 && Given(field) {
        var v := BaudValue(field);
        if v.None? {
          return false;
        }
        ok := AddKeyVal(port.baudrateId, v.value);
      } else if Given(field) {
        ok := false;
      } else {
        JoinUnits(Some(kv));
        ok := true;
      }
    }

    /** The port branch of _cfgDbAdd. */
    method AddPort(port: Port, baud: string, inprot: string, outprot: string) returns (ok: bool)
      requires Fits(kv, maxKv)
      modifies this
      ensures Added(old(kv), kv, maxKv, ok,
                    Join(Baud(port, baud), Join(Protfilt(inprot, port.inProt), Protfilt(outprot, port.outProt))))
    {
      ghost var b, i, o := Baud(port, baud), Protfilt(inprot, port.inProt), Protfilt(outprot, port.outProt);
      ghost var k0 := kv;
      ok := AddBaud(port, baud);
      AddedFirst(k0, kv, maxKv, ok, b, Join(i, o));
      if !ok {
        return;
      }
      ghost var k1 := kv;
      ok := AddFilter(inprot, port.inProt);
      AddedFirst(k1, kv, maxKv, ok, i, o);
      if !ok {
        return;
      }
      ok := AddFilter(outprot, port.outProt);
    }

    /** _cfgDbAdd */
    method Add(cat: Catalogue, line: string) returns (ok: bool)
      requires Fits(kv, maxKv)
      modifies this
      ensures Added(old(kv), kv, maxKv, ok, Wanted(cat, line))
    {
      var t := Tokens(line, FIELD_SEP);
      match KindOf(line)
      case NamedKind =>
        if |t| != 2 {
          return false;
        }
        var p := cat.named(t[0], t[1]);
        if p.None? {
          return false;
        }
        ok := AddKeyVal(p.value.id, p.value.raw);
      case HexKind =>
        if |t| != 2 {
          return false;
        }
        var p := cat.hex(t[0], t[1]);
        if p.None? {
          return false;
        }
        ok := AddKeyVal(p.value.id, p.value.raw);
      case RateKind =>
        if |t| < 6 {
          return false;
        }
        var items := cat.rateItems(t[0]);
        if items.None? || |items.value| != 5 {
          return false;
        }
        ok := AddRates(cat, items.value, t[1..6]);
      case PortKind =>
        if |t| < 4 {
          return false;
        }
        var port := cat.port(t[0]);
        if port.None? {
          return false;
        }
        ok := AddPort(port.value, t[1], t[2], t[3]);
      case UnknownKind =>
        ok := false;
    }
  }

  /** get_default_value_from_config: the list is built exactly when every line is well formed
      and all their pairs together have distinct ids and fit, and then it is those pairs in
      the order of the lines. */
  method BuildConfig(cat: Catalogue, lines: seq<string>, max: nat) returns (r: Option<seq<KeyVal>>)
    ensures r.Some? <==> WantedAll(cat, lines).Some? && Fits(WantedAll(cat, lines).value, max)
    ensures r.Some? ==> r == WantedAll(cat, lines)
  {
    var db := new CfgDb(max);
    var i := 0;
    assert lines[0..] == lines;
    JoinUnits(WantedAll(cat, lines));
    while i < |lines|
      invariant 0 <= i <= |lines| && Fits(db.kv, max) && db.maxKv == max
      invariant Join(Some(db.kv), WantedAll(cat, lines[i..])) == WantedAll(cat, lines)
    {
      assert lines[i..][0] == lines[i] && lines[i..][1..] == lines[i + 1..];
      ghost var before := db.kv;
      var ok := db.Add(cat, Clip(lines[i]));
      AddedFirst(before, db.kv, max, ok, Wanted(cat, Clip(lines[i])), WantedAll(cat, lines[i + 1..]));
      if !ok {
        return None;
      }
      i := i + 1;
    }
    JoinUnits(Some(db.kv));
    return Some(db.kv);
  }

  // -------------------------------------------------------- RAM comparison

  /** Wherever the RAM has an item of the list, it has the same raw value. */
  ghost predicate Agrees(ram: seq<KeyVal>, cfg: seq<KeyVal>) {
    forall i, j :: 0 <= i < |cfg| && 0 <= j < |ram| && ram[j].id == cfg[i].id ==> ram[j].raw == cfg[i].raw
  }

  /** The items rxGetConfig has put into ram; a negative count is its failure. */
  function Items(ram: seq<KeyVal>, nRam: int): seq<KeyVal>
    requires nRam <= |ram|
  {
    if nRam < 0 then [] else ram[..nRam]
  }

  /** check_gnss_config_in_ram */
  method CheckInRam(ram: seq<KeyVal>, nRam: int, cfg: seq<KeyVal>) returns (configured: bool)
    requires nRam <= |ram|
    ensures configured <==> Agrees(Items(ram, nRam), cfg)
  {
    ghost var items := Items(ram, nRam);
    configured := true;
    for c := 0 to |cfg|
      invariant configured <==> Agrees(items, cfg[..c])
    {
      var r := 0;
      while r < nRam
        invariant 0 <= r <= |items|
        invariant configured <==>
          Agrees(items, cfg[..c]) && forall j :: 0 <= j < r && items[j].id == cfg[c].id ==> items[j].raw == cfg[c].raw
      {
        if ram[r].id == cfg[c].id {
          if ram[r].raw != cfg[c].raw {
            configured := false;
          }
        }
        r := r + 1;
      }
      assert cfg[..c + 1] == cfg[..c] + [cfg[c]];
      AgreesSnoc(items, cfg[..c], cfg[c]);
    }
    assert cfg[..|cfg|] == cfg;
  }

  /** The receiver really is configured: every pair of the list is in its RAM. */
  ghost predicate HoldsAll(ram: seq<KeyVal>, cfg: seq<KeyVal>) {
    forall i :: 0 <= i < |cfg| ==> cfg[i] in ram
  }

  predicate Knows(ram: seq<KeyVal>, id: nat) {
    exists j :: 0 <= j < |ram| && ram[j].id == id
  }

  /** Every item of the list occurs in the RAM, with whatever value. */
  ghost predicate KnowsAll(ram: seq<KeyVal>, cfg: seq<KeyVal>) {
    forall i :: 0 <= i < |cfg| ==> Knows(ram, cfg[i].id)
  }

  lemma HeldIsKnown(ram: seq<KeyVal>, kv: KeyVal)
    ensures kv in ram ==> Knows(ram, kv.id)
    ensures Knows(ram, kv.id) && Agrees(ram, [kv]) ==> kv in ram
    ensures kv in ram && Distinct(ram) ==> Agrees(ram, [kv])
  {
    if kv in ram {
      var k :| 0 <= k < |ram| && ram[k] == kv;
      assert ram[k].id == kv.id;
      if Distinct(ram) {
        assert forall j :: 0 <= j < |ram| && ram[j].id == kv.id ==> j == k;
      }
    }
    if Knows(ram, kv.id) && Agrees(ram, [kv]) {
      var j :| 0 <= j < |ram| && ram[j].id == kv.id;
      assert ram[j].raw == [kv][0].raw;
      assert ram[j] == kv;
    }
  }

  /** An accepted receiver is configured exactly when it knows every item of the list; and a RAM
      that has each item once is accepted and knows every item exactly when it is configured. */
  lemma AcceptedMeansConfiguredIff(ram: seq<KeyVal>, cfg: seq<KeyVal>)
    ensures Agrees(ram, cfg) ==> (HoldsAll(ram, cfg) <==> KnowsAll(ram, cfg))
    ensures Distinct(ram) ==> (HoldsAll(ram, cfg) <==> Agrees(ram, cfg) && KnowsAll(ram, cfg))
  {
    assert Agrees(ram, cfg) <==> forall i :: 0 <= i < |cfg| ==> Agrees(ram, [cfg[i]]) by {
      if forall i :: 0 <= i < |cfg| ==> Agrees(ram, [cfg[i]]) {
        forall i, j | 0 <= i < |cfg| && 0 <= j < |ram| && ram[j].id == cfg[i].id
          ensures ram[j].raw == cfg[i].raw
        {
          assert Agrees(ram, [cfg[i]]) && [cfg[i]][0] == cfg[i];
        }
      }
    }
    forall i | 0 <= i < |cfg|
      ensures cfg[i] in ram ==> Knows(ram, cfg[i].id)
      ensures Knows(ram, cfg[i].id) && Agrees(ram, [cfg[i]]) ==> cfg[i] in ram
      ensures cfg[i] in ram && Distinct(ram) ==> Agrees(ram, [cfg[i]])
    {
      HeldIsKnown(ram, cfg[i]);
    }
  }

  /** The other case occurs: when the configuration cannot be read every list is accepted, and
      only the empty one is held. */
  lemma UnreadableIsAccepted(ram: seq<KeyVal>, nRam: int, cfg: seq<KeyVal>)
    requires nRam <= 0 && nRam <= |ram|
    ensures Agrees(Items(ram, nRam), cfg)
    ensures HoldsAll(Items(ram, nRam), cfg) <==> cfg == []
  {
    assert Items(ram, nRam) == [];
    if cfg != [] {
      assert cfg[0] !in Items(ram, nRam);
    }
  }

  lemma AgreesSnoc(ram: seq<KeyVal>, cfg: seq<KeyVal>, kv: KeyVal)
    ensures Agrees(ram, cfg + [kv]) <==>
              Agrees(ram, cfg) && forall j :: 0 <= j < |ram| && ram[j].id == kv.id ==> ram[j].raw == kv.raw
  {
    var more := cfg + [kv];
    assert more[|cfg|] == kv && forall i :: 0 <= i < |cfg| ==> more[i] == cfg[i];
  }

  /** The RAM after one item of the list has been written to it. */
  function Store(ram: seq<KeyVal>, kv: KeyVal): (r: seq<KeyVal>)
    ensures |r| == |ram|
  {
    seq(|ram|, (j: nat) requires j < |ram| => if ram[j].id == kv.id then kv else ram[j])
  }

  /** The RAM after the whole list has been written, in order. */
  function Overlay(ram: seq<KeyVal>, cfg: seq<KeyVal>): (r: seq<KeyVal>)
    ensures |r| == |ram|
    decreases |cfg|
  {
    if cfg == [] then ram else Store(Overlay(ram, cfg[..|cfg| - 1]), cfg[|cfg| - 1])
  }

  ghost predicate NoConflict(cfg: seq<KeyVal>) {
    forall i, j :: 0 <= i < |cfg| && 0 <= j < |cfg| && cfg[i].id == cfg[j].id ==> cfg[i].raw == cfg[j].raw
  }

  lemma {:induction false} OverlayAgrees(ram: seq<KeyVal>, cfg: seq<KeyVal>)
    requires NoConflict(cfg)
    ensures Agrees(Overlay(ram, cfg), cfg)
    decreases |cfg|
  {
    if cfg != [] {
      var front, last := cfg[..|cfg| - 1], cfg[|cfg| - 1];
      assert forall i :: 0 <= i < |front| ==> front[i] == cfg[i];
      OverlayAgrees(ram, front);
      assert cfg == front + [last];
      var before := Overlay(ram, front);
      forall i, j | 0 <= i < |front| && 0 <= j < |ram| && Overlay(ram, cfg)[j].id == front[i].id
        ensures Overlay(ram, cfg)[j].raw == front[i].raw
      {
        assert cfg[i].id == cfg[|cfg| - 1].id ==> cfg[i].raw == cfg[|cfg| - 1].raw;
        assert before[j].id == front[i].id;
      }
      AgreesSnoc(Overlay(ram, cfg), front, last);
    }
  }

  /** A receiver whose RAM was overlaid with a list passes the comparison with that list, for
      every RAM, exactly when the list has no two values for one id. */
  lemma ConfiguredReceiverPassesIff(cfg: seq<KeyVal>)
    ensures (forall ram :: Agrees(Overlay(ram, cfg), cfg)) <==> NoConflict(cfg)
  {
    if NoConflict(cfg) {
      forall ram
        ensures Agrees(Overlay(ram, cfg), cfg)
      {
        OverlayAgrees(ram, cfg);
      }
    } else {
      var i, j :| 0 <= i < |cfg| && 0 <= j < |cfg| && cfg[i].id == cfg[j].id && cfg[i].raw != cfg[j].raw;
      ConflictIsSeen([KeyVal(cfg[i].id, 0)], cfg, i, j);
    }
  }

  /** Of two values for one id, at most one is in the RAM. */
  lemma ConflictIsSeen(ram: seq<KeyVal>, cfg: seq<KeyVal>, i: nat, j: nat)
    requires i < |cfg| && j < |cfg| && cfg[i].id == cfg[j].id && cfg[i].raw != cfg[j].raw
    requires |ram| > 0 && ram[0].id == cfg[i].id
    ensures !Agrees(Overlay(ram, cfg), cfg)
  {
    OverlayKeepsId(ram, cfg);
    var after := Overlay(ram, cfg);
    assert after[0].id == cfg[i].id == cfg[j].id;
    assert after[0].raw != cfg[i].raw || after[0].raw != cfg[j].raw;
  }

  lemma {:induction false} OverlayKeepsId(ram: seq<KeyVal>, cfg: seq<KeyVal>)
    ensures forall j :: 0 <= j < |ram| ==> Overlay(ram, cfg)[j].id == ram[j].id
    decreases |cfg|
  {
    if cfg != [] {
      OverlayKeepsId(ram, cfg[..|cfg| - 1]);
    }
  }

  // ------------------------------------------------------------- overrides

  /** val.E1 and val.I2: the low byte, and the low two bytes, of the raw value. */
  function SetE1(raw: nat, v: nat): nat
    requires v < 0x100
  {
    raw - raw % 0x100 + v
  }

  function SetI2(raw: nat, v: nat): nat
    requires v < 0x1_0000
  {
    raw - raw % 0x1_0000 + v
  }

  /** Only the low byte, or the low two bytes, of the value change. */
  lemma LowBytesReplaced(raw: nat, v: nat)
    ensures v < 0x100 ==> SetE1(raw, v) % 0x100 == v && SetE1(raw, v) / 0x100 == raw / 0x100
    ensures v < 0x1_0000 ==> SetI2(raw, v) % 0x1_0000 == v && SetI2(raw, v) / 0x1_0000 == raw / 0x1_0000
  {
  }

  /** The last entry with this id, or -1. */
  function LastWithId(kv: seq<KeyVal>, id: nat): (r: int)
    ensures r == -1 || (0 <= r < |kv| && kv[r].id == id)
    ensures forall j :: (if r == -1 then 0 else r + 1) <= j < |kv| ==> kv[j].id != id
    decreases |kv|
  {
    if kv == [] then -1
    else if kv[|kv| - 1].id == id then |kv| - 1
    else LastWithId(kv[..|kv| - 1], id)
  }

  /** The list with the value of the last entry with this id replaced by f of it. */
  function Override(kv: seq<KeyVal>, id: nat, f: nat -> nat): (r: seq<KeyVal>)
    ensures |r| == |kv|
  {
    var i := LastWithId(kv, id);
    if i == -1 then kv else kv[i := KeyVal(id, f(kv[i].raw))]
  }

  /** The loops at the end of set_preferred_time_scale and set_cable_delay. */
  method OverrideLast(kv: array<KeyVal>, id: nat, f: nat -> nat) returns (found: bool)
    modifies kv
    ensures kv[..] == Override(old(kv[..]), id, f)
    ensures found <==> exists i :: 0 <= i < kv.Length && old(kv[i]).id == id
  {
    ghost var before := kv[..];
    var pair := kv.Length;
    while pair > 0
      invariant 0 <= pair <= kv.Length && kv[..] == before
      invariant forall j :: pair <= j < kv.Length ==> before[j].id != id
    {
      pair := pair - 1;
      if kv[pair].id == id {
        assert LastWithId(before, id) == pair;
        kv[pair] := KeyVal(id, f(kv[pair].raw));
        return true;
      }
    }
    return false;
  }

  /** The names a time scale can have, compared on three characters. */
  function TimeScale(name: string, grid: string -> nat): Option<nat>
    requires forall s :: grid(s) < 0x100
  {
    if HasPrefix(name, "GPS") then Some(grid("GPS"))
    else if HasPrefix(name, "GAL") then Some(grid("GAL"))
    else if HasPrefix(name, "GLO") then Some(grid("GLO"))
    else if HasPrefix(name, "BDS") then Some(grid("BDS"))
    else if HasPrefix(name, "UTC") then Some(grid("UTC"))
    else None
  }

  /** A setting stands for the time scale whose three letters it starts with, and for none
      otherwise. */
  lemma TimeScaleNames(setting: string, grid: string -> nat)
    requires forall s :: grid(s) < 0x100
    ensures TimeScale(setting, grid).Some? <==>
              |setting| >= 3 && setting[..3] in {"GPS", "GAL", "GLO", "BDS", "UTC"}
    ensures TimeScale(setting, grid).Some? ==> TimeScale(setting, grid).value == grid(setting[..3])
  {
  }

  /** set_preferred_time_scale; the value tables of the library are in grid. */
  method SetPreferredTimeScale(kv: array<KeyVal>, setting: Option<string>, gridId: nat, grid: string -> nat)
    returns (done: bool)
    requires forall s :: grid(s) < 0x100
    modifies kv
    ensures setting.None? || TimeScale(setting.value, grid).None? ==> !done && kv[..] == old(kv[..])
    ensures setting.Some? && TimeScale(setting.value, grid).Some? ==>
              && kv[..] == Override(old(kv[..]), gridId,
                                    raw => SetE1(raw, TimeScale(setting.value, grid).value % 0x100))
              && (done <==> exists i :: 0 <= i < kv.Length && old(kv[i]).id == gridId)
  {
    if setting.None? {
      return false;
    }
    var v := TimeScale(setting.value, grid);
    if v.None? {
      return false;
    }
    done := OverrideLast(kv, gridId, raw => SetE1(raw, v.value % 0x100));
  }

  /** set_cable_delay; parsed is what strtol made of the setting. */
  method SetCableDelay(kv: array<KeyVal>, parsed: Option<int>, delayId: nat) returns (done: bool)
    modifies kv
    ensures parsed.None? || parsed.value <= 0 || parsed.value > 0x7fff ==> !done && kv[..] == old(kv[..])
    ensures parsed.Some? && 0 < parsed.value <= 0x7fff ==>
              && kv[..] == Override(old(kv[..]), delayId, raw => SetI2(raw, parsed.value % 0x1_0000))
              && (done <==> exists i :: 0 <= i < kv.Length && old(kv[i]).id == delayId)
  {
    if parsed.None? {
      return false;
    }
    var v := parsed.value;
    if v <= 0 || v > 0x7fff {
      return false;
    }
    done := OverrideLast(kv, delayId, raw => SetI2(raw, v % 0x1_0000));
  }

  /** An override changes at most one value and no id. */
  lemma OverrideKeepsIds(kv: seq<KeyVal>, id: nat, f: nat -> nat)
    ensures forall i :: 0 <= i < |kv| ==> Override(kv, id, f)[i].id == kv[i].id
    ensures forall i :: 0 <= i < |kv| && i != LastWithId(kv, id) ==> Override(kv, id, f)[i] == kv[i]
    ensures var i := LastWithId(kv, id); i >= 0 ==> Override(kv, id, f)[i] == KeyVal(id, f(kv[i].raw))
    ensures Distinct(kv) ==> Distinct(Override(kv, id, f))
    ensures Distinct(kv) ==> NoConflict(Override(kv, id, f))
  {
    if Distinct(kv) {
      var r := Override(kv, id, f);
      assert Distinct(r);
      assert forall i, j :: 0 <= i < |r| && 0 <= j < |r| && r[i].id == r[j].id ==> i == j;
    }
  }

  /** Every list that builds, with both overrides applied, is accepted by a receiver that was
      configured with it, whatever else its RAM holds. */
  lemma BuiltListIsAccepted(cat: Catalogue, lines: seq<string>, max: nat, ram: seq<KeyVal>,
                            gridId: nat, f: nat -> nat, delayId: nat, g: nat -> nat)
    requires WantedAll(cat, lines).Some? && Fits(WantedAll(cat, lines).value, max)
    ensures
      var built := WantedAll(cat, lines).value;
      var cfg := Override(Override(built, gridId, f), delayId, g);
      && Fits(cfg, max)
      && (forall i :: 0 <= i < |cfg| ==> cfg[i].id == built[i].id)
      && Agrees(Overlay(ram, cfg), cfg)
  {
    var built := WantedAll(cat, lines).value;
    OverrideKeepsIds(built, gridId, f);
    OverrideKeepsIds(Override(built, gridId, f), delayId, g);
    OverlayAgrees(ram, Override(Override(built, gridId, f), delayId, g));
  }
}
