/**
 The text file a store is flushed to and read back from: one line per key, blanks between
 the fields, `server@version` for every stamp.
 */
module Persistence {
  import opened Words
  import opened Seqs
  import opened Clocks
  import opened Decimal

  type Values = map<string, string>
  type VersionStore = map<string, Clock>

  function PrintStamp(x: Stamp): string {
    x.server + "@" + ToString(x.version)
  }

  function PrintClock(c: Clock): string {
    if c == [] then "" else PrintStamp(c[0]) + (" " + PrintClock(c[1..]))
  }

  /** A line without its line break. */
  function PrintEntry(key: string, value: string, clock: Clock): string {
    key + (" " + (value + (" " + PrintClock(clock))))
  }

  function PrintStore(order: seq<string>, values: Values, clocks: VersionStore): string
    requires forall k :: k in order ==> k in values && k in clocks
  {
    if order == [] then ""
    else
      var last := order[|order| - 1];
      PrintStore(order[..|order| - 1], values, clocks) + (PrintEntry(last, values[last], clocks[last]) + "\n")
  }

  /** The position of the first c, or the length if there is none. */
  function Find(s: string, c: char): (i: nat)
    ensures i <= |s| && c !in s[..i]
    ensures i < |s| <==> c in s
    ensures i < |s| ==> s[i] == c
  {
    if s == [] || s[0] == c then 0 else 1 + Find(s[1..], c)
  }

  /** The lines that repeated `getline` calls return. */
  function Lines(text: string): seq<string>
    decreases |text|
  {
    if text == [] then []
    else
      var i := Find(text, '\n');
      if i == |text| then [text] else [text[..i]] + Lines(text[i + 1..])
  }

  function Word(s: string): (w: string)
    ensures w <= s && (forall c :: c in w ==> !IsSpace(c))
    ensures s != [] && !IsSpace(s[0]) ==> w != []
  {
    if s == [] || IsSpace(s[0]) then [] else [s[0]] + Word(s[1..])
  }

  /** The words that repeated extractions from the line return. */
  function Tokens(line: string): (words: seq<string>)
    decreases |line|
    ensures forall w :: w in words ==> w != [] && forall c :: c in w ==> !IsSpace(c)
  {
    var t := DropSpaces(line);
    if t == [] then []
    else
      var w := Word(t);
      [w] + Tokens(t[|w|..])
  }

  /** Server up to the first '@', version behind it; without '@' the whole word is both. */
  function ParseStamp(word: string): Option<Stamp> {
    var i := Find(word, '@');
    var version := Stoull(if i == |word| then word else word[i + 1..]);
    if version == None then None else Some(Stamp(word[..i], version.value))
  }

  function ParseClock(words: seq<string>): Option<Clock> {
    if words == [] then Some([])
    else
      var front, last := ParseClock(words[..|words| - 1]), ParseStamp(words[|words| - 1]);
      if front == None || last == None then None else Some(front.value + [last.value])
  }

  datatype Entry = Entry(key: string, value: string, clock: Clock)

  function ParseLine(line: string): Option<Entry> {
    var words := Tokens(line);
    var clock := ParseClock(words[if |words| < 2 then |words| else 2..]);
    if clock == None then None
    else Some(Entry(if |words| > 0 then words[0] else "", if |words| > 1 then words[1] else "", clock.value))
  }

  /** What the two maps hold after reading, and whether no exception stopped the reading. */
  datatype Loaded = Loaded(values: Values, clocks: VersionStore, ok: bool)

  function LoadLines(lines: seq<string>): (r: Loaded)
    ensures r.values.Keys == r.clocks.Keys
  {
    if lines == [] then Loaded(map[], map[], true)
    else
      var r, e := LoadLines(lines[..|lines| - 1]), ParseLine(lines[|lines| - 1]);
      if !r.ok then r
      else if e == None then r.(ok := false)
      else Loaded(r.values[e.value.key := e.value.value], r.clocks[e.value.key := e.value.clock], true)
  }

  function Load(text: string): Loaded {
    LoadLines(Lines(text))
  }

  predicate NoSpaces(s: string) {
    forall c :: c in s ==> !IsSpace(c)
  }

  predicate CleanServers(c: Clock) {
    forall x :: x in c ==> NoSpaces(x.server) && '@' !in x.server
  }

  /** No blanks, no '@' in server names, and no empty field in front of a nonempty one. */
  predicate PrintableEntry(key: string, value: string, clock: Clock) {
    && NoSpaces(key) && NoSpaces(value) && CleanServers(clock)
    && (key == "" ==> value == "") && (value == "" ==> clock == [])
  }

  predicate Printable(values: Values, clocks: VersionStore)
    requires values.Keys == clocks.Keys
  {
    forall k :: k in values ==> PrintableEntry(k, values[k], clocks[k])
  }

  ghost predicate Enumerates(order: seq<string>, keys: set<string>) {
    NoDuplicates(order) && ToSet(order) == keys
  }

  // ----- words -----

  lemma {:induction false} WordOf(w: string, rest: string)
    requires NoSpaces(w) && (rest == [] || IsSpace(rest[0]))
    ensures Word(w + rest) == w
  {
    if w == [] {
      assert w + rest == rest;
    } else {
      assert (w + rest)[1..] == w[1..] + rest && w[0] in w;
      WordOf(w[1..], rest);
    }
  }

  function WordOrNone(w: string): seq<string> {
    if w == [] then [] else [w]
  }

  /** The words of a line: up to its first blank of any kind there is one word, or none, and so on. */
  lemma TokensExactly(w: string, blank: char, rest: string)
    requires NoSpaces(w) && IsSpace(blank)
    ensures Tokens(w) == WordOrNone(w)
    ensures Tokens(w + ([blank] + rest)) == WordOrNone(w) + Tokens(rest)
  {
    var line := w + ([blank] + rest);
    assert Tokens([blank] + rest) == Tokens(rest) by {
      assert ([blank] + rest)[1..] == rest;
      assert DropSpaces([blank] + rest) == DropSpaces(rest);
    }
    if w == [] {
      assert line == [blank] + rest;
    } else {
      assert line[0] == w[0] && w[0] in w;
      assert DropSpaces(line) == line && DropSpaces(w) == w;
      WordOf(w, []);
      WordOf(w, [blank] + rest);
      assert w + [] == w && w[|w|..] == [] && line[|w|..] == [blank] + rest;
    }
  }

  /** A blank-free word followed by a blank is read back as one token, or as none if empty. */
  lemma TokensOfWord(w: string, rest: string)
    requires NoSpaces(w)
    ensures Tokens(w + (" " + rest)) == WordOrNone(w) + Tokens(rest)
  {
    TokensExactly(w, ' ', rest);
  }

  function StampWords(c: Clock): (words: seq<string>)
    ensures |words| == |c|
  {
    seq(|c|, i requires 0 <= i < |c| => PrintStamp(c[i]))
  }

  lemma PrintedStampIsWord(x: Stamp)
    requires NoSpaces(x.server)
    ensures NoSpaces(PrintStamp(x)) && PrintStamp(x) != []
  {
    forall c | c in PrintStamp(x) ensures !IsSpace(c) {
      assert c in x.server || c in "@" || c in ToString(x.version);
    }
  }

  lemma {:induction false} TokensOfClock(c: Clock)
    requires CleanServers(c)
    ensures Tokens(PrintClock(c)) == StampWords(c)
  {
    if c != [] {
      assert c[0] in c;
      PrintedStampIsWord(c[0]);
      TokensOfWord(PrintStamp(c[0]), PrintClock(c[1..]));
      TokensOfClock(c[1..]);
      assert [PrintStamp(c[0])] + StampWords(c[1..]) == StampWords(c);
    }
  }

  lemma TokensOfEntry(key: string, value: string, clock: Clock)
    requires NoSpaces(key) && NoSpaces(value) && CleanServers(clock)
    ensures Tokens(PrintEntry(key, value, clock)) == WordOrNone(key) + (WordOrNone(value) + StampWords(clock))
  {
    TokensOfWord(key, value + (" " + PrintClock(clock)));
    TokensOfWord(value, PrintClock(clock));
    TokensOfClock(clock);
  }

  lemma FindUnique(s: string, c: char, i: nat)
    requires i < |s| && s[i] == c && c !in s[..i]
    ensures Find(s, c) == i
  {
    var k := Find(s, c);
    assert forall j :: 0 <= j < i ==> s[..i][j] == s[j];
    assert forall j :: 0 <= j < k ==> s[..k][j] == s[j];
  }

  lemma StampRoundTrip(x: Stamp)
    requires '@' !in x.server
    ensures ParseStamp(PrintStamp(x)) == Some(x)
  {
    var word, n := PrintStamp(x), |x.server|;
    assert word[n] == '@' && word[..n] == x.server && word[n + 1..] == ToString(x.version);
    FindUnique(word, '@', n);
    StoullInvertsToString(x.version);
  }

  lemma ParseClockAppend(words: seq<string>, c: Clock, word: string, x: Stamp)
    requires ParseClock(words) == Some(c) && ParseStamp(word) == Some(x)
    ensures ParseClock(words + [word]) == Some(c + [x])
  {
    assert (words + [word])[..|words|] == words;
  }

  lemma StampWordsAppend(c: Clock, x: Stamp)
    ensures StampWords(c + [x]) == StampWords(c) + [PrintStamp(x)]
  {
  }

  lemma {:induction false} ClockRoundTrip(c: Clock)
    requires CleanServers(c)
    ensures ParseClock(StampWords(c)) == Some(c)
  {
    if c != [] {
      var front, last := c[..|c| - 1], c[|c| - 1];
      assert c == front + [last];
      assert last in c;
      StampRoundTrip(last);
      ClockRoundTrip(front);
      StampWordsAppend(front, last);
      ParseClockAppend(StampWords(front), front, PrintStamp(last), last);
    }
  }

  lemma FieldsOfWords(key: string, value: string, stamps: seq<string>)
    requires (key == "" ==> value == "") && (value == "" ==> stamps == [])
    ensures var words := WordOrNone(key) + (WordOrNone(value) + stamps);
      && words[if |words| < 2 then |words| else 2..] == stamps
      && (if |words| > 0 then words[0] else "") == key
      && (if |words| > 1 then words[1] else "") == value
  {
    var words := WordOrNone(key) + (WordOrNone(value) + stamps);
    if value != "" {
      assert words == [key, value] + stamps;
    } else {
      assert words == WordOrNone(key);
    }
  }

  /** A printable entry is read back as itself. */
  lemma EntryRoundTrip(key: string, value: string, clock: Clock)
    requires PrintableEntry(key, value, clock)
    ensures ParseLine(PrintEntry(key, value, clock)) == Some(Entry(key, value, clock))
  {
    TokensOfEntry(key, value, clock);
    ClockRoundTrip(clock);
    FieldsOfWords(key, value, StampWords(clock));
  }

  // ----- lines -----

  ghost predicate CleanStore(order: seq<string>, values: Values, clocks: VersionStore) {
    forall k :: k in order ==>
      k in values && k in clocks && NoSpaces(k) && NoSpaces(values[k]) && CleanServers(clocks[k])
  }

  lemma FirstLine(line: string, rest: string)
    requires '\n' !in line
    ensures Lines(line + ("\n" + rest)) == [line] + Lines(rest)
  {
    var all := line + ("\n" + rest);
    assert all[..|line|] == line && all[|line|] == '\n';
    FindUnique(all, '\n', |line|);
    assert all[|line| + 1..] == rest;
  }

  lemma Regroup(a: string, b: string, c: string, d: string)
    ensures (a + (b + c)) + d == a + (b + (c + d))
  {
  }

  lemma LinesAppendBehind(first: string, rest: string, line: string)
    requires '\n' !in first
    requires Lines(rest + (line + "\n")) == Lines(rest) + [line]
    ensures Lines((first + ("\n" + rest)) + (line + "\n")) == Lines(first + ("\n" + rest)) + [line]
  {
    Regroup(first, "\n", rest, line + "\n");
    FirstLine(first, rest);
    FirstLine(first, rest + (line + "\n"));
  }

  /** A text that ends in a line break is a first line, its break, and such a text. */
  lemma SplitFirstLine(text: string) returns (first: string, rest: string)
    requires text != [] && text[|text| - 1] == '\n'
    ensures text == first + ("\n" + rest) && '\n' !in first
    ensures |rest| < |text| && (rest == [] || rest[|rest| - 1] == '\n')
  {
    var i := Find(text, '\n');
    assert text[|text| - 1] in text;
    first, rest := text[..i], text[i + 1..];
    assert rest == [] || rest[|rest| - 1] == text[|text| - 1];
  }

  lemma {:induction false} LinesAppend(text: string, line: string)
    requires '\n' !in line
    requires text == [] || text[|text| - 1] == '\n'
    ensures Lines(text + (line + "\n")) == Lines(text) + [line]
    decreases |text|
  {
    if text == [] {
      FirstLine(line, "");
      assert text + (line + "\n") == line + ("\n" + "");
    } else {
      var first, rest := SplitFirstLine(text);
      LinesAppend(rest, line);
      LinesAppendBehind(first, rest, line);
    }
  }

  ghost predicate EndsInBreak(text: string) {
    text == [] || text[|text| - 1] == '\n'
  }

  function Unlines(lines: seq<string>): string {
    if lines == [] then "" else lines[0] + ("\n" + Unlines(lines[1..]))
  }

  lemma UnlinesMore(first: string, more: seq<string>)
    ensures Unlines([first] + more) == first + ("\n" + Unlines(more))
  {
    assert ([first] + more)[1..] == more;
  }

  lemma LastOfRest(first: string, rest: string)
    ensures var text := first + ("\n" + rest);
      EndsInBreak(text) <==> EndsInBreak(rest)
  {
  }

  /** The lines hold no line break; each with its break they make up the text, whose last break may be missing. */
  lemma {:induction false} LinesExactly(text: string)
    ensures forall line :: line in Lines(text) ==> '\n' !in line
    ensures Unlines(Lines(text)) == if EndsInBreak(text) then text else text + "\n"
    decreases |text|
  {
    var i := Find(text, '\n');
    if text == [] {
    } else if i == |text| {
      UnlinesMore(text, []);
      assert Lines(text) == [text] + [] && text[|text| - 1] in text && text[..i] == text;
    } else {
      var first, rest := text[..i], text[i + 1..];
      assert text == first + ("\n" + rest);
      FirstLine(first, rest);
      LinesExactly(rest);
      UnlinesMore(first, Lines(rest));
      LastOfRest(first, rest);
      Regroup(first, "\n", rest, "\n");
    }
  }

  function EntryLines(order: seq<string>, values: Values, clocks: VersionStore): (lines: seq<string>)
    requires forall k :: k in order ==> k in values && k in clocks
    ensures |lines| == |order|
  {
    seq(|order|, i requires 0 <= i < |order| => PrintEntry(order[i], values[order[i]], clocks[order[i]]))
  }

  lemma {:induction false} PrintedClockHasNoBreak(c: Clock)
    requires CleanServers(c)
    ensures '\n' !in PrintClock(c)
  {
    if c != [] {
      assert c[0] in c;
      PrintedStampIsWord(c[0]);
      PrintedClockHasNoBreak(c[1..]);
      assert '\n' in PrintStamp(c[0]) ==> IsSpace('\n');
    }
  }

  lemma PrintedEntryHasNoBreak(key: string, value: string, clock: Clock)
    requires NoSpaces(key) && NoSpaces(value) && CleanServers(clock)
    ensures '\n' !in PrintEntry(key, value, clock)
  {
    PrintedClockHasNoBreak(clock);
    assert IsSpace('\n');
  }

  lemma EntryLinesAppend(front: seq<string>, last: string, values: Values, clocks: VersionStore)
    requires forall k :: k in front + [last] ==> k in values && k in clocks
    ensures forall k :: k in front ==> k in values && k in clocks
    ensures last in values && last in clocks
    ensures EntryLines(front + [last], values, clocks)
         == EntryLines(front, values, clocks) + [PrintEntry(last, values[last], clocks[last])]
  {
    assert forall k :: k in front ==> k in front + [last];
    assert last in front + [last];
  }

  lemma PrintStoreAppend(front: seq<string>, last: string, values: Values, clocks: VersionStore)
    requires forall k :: k in front ==> k in values && k in clocks
    requires last in values && last in clocks
    ensures PrintStore(front + [last], values, clocks)
         == PrintStore(front, values, clocks) + (PrintEntry(last, values[last], clocks[last]) + "\n")
  {
    assert (front + [last])[..|front|] == front;
  }

  /** One more entry is one more line. */
  lemma LinesOfOneMore(front: seq<string>, last: string, values: Values, clocks: VersionStore)
    requires CleanStore(front + [last], values, clocks) && CleanStore(front, values, clocks)
    requires EndsInBreak(PrintStore(front, values, clocks))
    ensures EndsInBreak(PrintStore(front + [last], values, clocks))
    ensures last in values && last in clocks && Lines(PrintStore(front + [last], values, clocks))
      == Lines(PrintStore(front, values, clocks)) + [PrintEntry(last, values[last], clocks[last])]
  {
    assert last in front + [last];
    var text, line := PrintStore(front, values, clocks), PrintEntry(last, values[last], clocks[last]);
    PrintStoreAppend(front, last, values, clocks);
    PrintedEntryHasNoBreak(last, values[last], clocks[last]);
    LinesAppend(text, line);
    assert (text + (line + "\n"))[|text| + |line|] == '\n';
  }

  /** A store without blanks is printed as exactly one line per key. */
  lemma {:induction false} LinesOfStore(order: seq<string>, values: Values, clocks: VersionStore)
    requires CleanStore(order, values, clocks)
    ensures Lines(PrintStore(order, values, clocks)) == EntryLines(order, values, clocks)
    ensures EndsInBreak(PrintStore(order, values, clocks))
  {
    if order != [] {
      var front, last := order[..|order| - 1], order[|order| - 1];
      assert order == front + [last];
      LinesOfStore(front, values, clocks);
      LinesOfOneMore(front, last, values, clocks);
      EntryLinesAppend(front, last, values, clocks);
    }
  }

  // ----- round trip -----

  ghost predicate RoundTrips(order: seq<string>, values: Values, clocks: VersionStore)
    requires forall k :: k in order ==> k in values && k in clocks
  {
    Load(PrintStore(order, values, clocks)) == Loaded(values, clocks, true)
  }

  /** The part of the maps that the keys of a list select. */
  function Part<T>(m: map<string, T>, keys: seq<string>): map<string, T>
    requires forall k :: k in keys ==> k in m
  {
    map k | k in keys :: m[k]
  }

  lemma LoadAppend(lines: seq<string>, line: string)
    requires LoadLines(lines).ok && ParseLine(line) != None
    ensures var r, e := LoadLines(lines), ParseLine(line).value;
      LoadLines(lines + [line]) == Loaded(r.values[e.key := e.value], r.clocks[e.key := e.clock], true)
  {
    assert (lines + [line])[..|lines|] == lines;
  }

  lemma PartAppend<T>(m: map<string, T>, front: seq<string>, last: string)
    requires forall k :: k in front + [last] ==> k in m
    ensures forall k :: k in front ==> k in m
    ensures last in m && Part(m, front + [last]) == Part(m, front)[last := m[last]]
  {
    assert forall k :: k in front ==> k in front + [last];
    assert last in front + [last];
  }

  lemma {:induction false} PrintableLoads(order: seq<string>, values: Values, clocks: VersionStore)
    requires forall k :: k in order ==> k in values && k in clocks
    requires forall k :: k in order ==> PrintableEntry(k, values[k], clocks[k])
    ensures LoadLines(EntryLines(order, values, clocks)) == Loaded(Part(values, order), Part(clocks, order), true)
  {
    if order != [] {
      var front, last := order[..|order| - 1], order[|order| - 1];
      assert order == front + [last];
      PrintableLoads(front, values, clocks);
      EntryLinesAppend(front, last, values, clocks);
      EntryRoundTrip(last, values[last], clocks[last]);
      LoadAppend(EntryLines(front, values, clocks), PrintEntry(last, values[last], clocks[last]));
      PartAppend(values, front, last);
      PartAppend(clocks, front, last);
    }
  }

  lemma ParsedServersAreClean(words: seq<string>)
    requires forall w :: w in words ==> NoSpaces(w)
    ensures ParseClock(words) != None ==> CleanServers(ParseClock(words).value)
  {
    if words != [] && ParseClock(words) != None {
      ParsedServersAreClean(words[..|words| - 1]);
      var last := words[|words| - 1];
      assert last in words;
      assert forall c :: c in last[..Find(last, '@')] ==> c in last;
    }
  }

  lemma ParsedLineIsClean(line: string)
    requires ParseLine(line) != None
    ensures var e := ParseLine(line).value; NoSpaces(e.key) && NoSpaces(e.value) && CleanServers(e.clock)
  {
    var words := Tokens(line);
    var rest := words[if |words| < 2 then |words| else 2..];
    assert forall w :: w in rest ==> w in words;
    ParsedServersAreClean(rest);
    if |words| > 0 { assert words[0] in words; }
    if |words| > 1 { assert words[1] in words; }
  }

  ghost predicate CleanLoaded(r: Loaded) {
    && r.values.Keys == r.clocks.Keys
    && forall k :: k in r.values ==> NoSpaces(k) && NoSpaces(r.values[k]) && CleanServers(r.clocks[k])
  }

  lemma CleanLoadedPut(r: Loaded, e: Entry)
    requires CleanLoaded(r) && NoSpaces(e.key) && NoSpaces(e.value) && CleanServers(e.clock)
    ensures CleanLoaded(Loaded(r.values[e.key := e.value], r.clocks[e.key := e.clock], true))
  {
  }

  /** Whatever the file holds, no blank and no '@' in a server name can come out of it. */
  lemma {:induction false} LoadedIsClean(lines: seq<string>)
    ensures CleanLoaded(LoadLines(lines))
  {
    if lines != [] {
      var front, last := lines[..|lines| - 1], lines[|lines| - 1];
      assert lines == front + [last];
      LoadedIsClean(front);
      if LoadLines(front).ok && ParseLine(last) != None {
        ParsedLineIsClean(last);
        LoadAppend(front, last);
        var r, e := LoadLines(front), ParseLine(last).value;
        CleanLoadedPut(r, e);
      } else {
        assert LoadLines(lines) == LoadLines(front).(ok := false);
      }
    }
  }

  lemma {:induction false} LoadedMeansParsed(lines: seq<string>, i: nat)
    requires LoadLines(lines).ok && i < |lines|
    ensures ParseLine(lines[i]) != None
  {
    if i < |lines| - 1 {
      LoadedMeansParsed(lines[..|lines| - 1], i);
    }
  }

  lemma LoadOneMore(front: seq<string>, last: string)
    ensures LoadLines(front + [last]).ok <==> LoadLines(front).ok && ParseLine(last) != None
  {
    assert (front + [last])[..|front|] == front;
  }

  /** Reading succeeds exactly if every line can be read. */
  lemma {:induction false} LoadsExactly(lines: seq<string>)
    ensures LoadLines(lines).ok <==> forall line :: line in lines ==> ParseLine(line) != None
  {
    if lines != [] {
      var front, last := lines[..|lines| - 1], lines[|lines| - 1];
      assert lines == front + [last];
      LoadsExactly(front);
      LoadOneMore(front, last);
      assert forall line :: line in lines <==> line in front || line == last;
    }
  }

  /** The two maps have this entry. */
  ghost predicate HasEntry(r: Loaded, e: Entry) {
    e.key in r.values && e.key in r.clocks && r.values[e.key] == e.value && r.clocks[e.key] == e.clock
  }

  ghost predicate SpeaksOf(line: string, key: string) {
    ParseLine(line) != None && ParseLine(line).value.key == key
  }

  lemma OtherLineKeepsEntry(lines: seq<string>, line: string, e: Entry)
    requires LoadLines(lines + [line]).ok && HasEntry(LoadLines(lines), e) && !SpeaksOf(line, e.key)
    ensures LoadLines(lines).ok && HasEntry(LoadLines(lines + [line]), e)
  {
    LoadOneMore(lines, line);
    LoadAppend(lines, line);
  }

  /** Then a key has what the last line with this key says. */
  lemma {:induction false} LastLineWins(before: seq<string>, line: string, e: Entry, later: seq<string>)
    requires ParseLine(line) == Some(e) && LoadLines(before + [line] + later).ok
    requires forall l :: l in later ==> !SpeaksOf(l, e.key)
    ensures HasEntry(LoadLines(before + [line] + later), e)
  {
    if later == [] {
      assert before + [line] + later == before + [line];
      LoadOneMore(before, line);
      LoadAppend(before, line);
    } else {
      var front, last := later[..|later| - 1], later[|later| - 1];
      assert before + [line] + later == (before + [line] + front) + [last];
      assert last in later && forall l :: l in front ==> l in later;
      LoadOneMore(before + [line] + front, last);
      LastLineWins(before, line, e, front);
      OtherLineKeepsEntry(before + [line] + front, last, e);
    }
  }

  /** When reading succeeds every key was read from some line. */
  lemma {:induction false} LoadedKeyHasLine(lines: seq<string>, k: string) returns (i: nat)
    requires LoadLines(lines).ok && k in LoadLines(lines).values
    ensures i < |lines| && ParseLine(lines[i]) != None && ParseLine(lines[i]).value.key == k
  {
    var front, last := lines[..|lines| - 1], lines[|lines| - 1];
    assert lines == front + [last];
    LoadAppend(front, last);
    if ParseLine(last).value.key == k {
      i := |front|;
    } else {
      i := LoadedKeyHasLine(front, k);
    }
  }

  /** Only an entry without any word is read under the empty key. */
  lemma EmptyKeyIsEmptyEntry(key: string, value: string, clock: Clock)
    requires NoSpaces(key) && NoSpaces(value) && CleanServers(clock)
    requires ParseLine(PrintEntry(key, value, clock)) != None
    ensures ParseLine(PrintEntry(key, value, clock)).value.key == "" ==> key == "" && value == "" && clock == []
  {
    TokensOfEntry(key, value, clock);
    var words := Tokens(PrintEntry(key, value, clock));
    if words != [] {
      assert words[0] in words;
    }
  }

  /** With a proper key, an empty value in front of a stamp makes the stamp the value. */
  lemma EmptyValueIsLost(key: string, clock: Clock)
    requires NoSpaces(key) && key != "" && CleanServers(clock) && clock != []
    requires ParseLine(PrintEntry(key, "", clock)) != None
    ensures ParseLine(PrintEntry(key, "", clock)).value.key == key
    ensures ParseLine(PrintEntry(key, "", clock)).value.value != ""
  {
    TokensOfEntry(key, "", clock);
    var words := Tokens(PrintEntry(key, "", clock));
    assert words[1] in words;
  }

  lemma EmptyKeyLoadsOnlyEmpty(order: seq<string>, values: Values, clocks: VersionStore)
    requires CleanStore(order, values, clocks) && "" in order
    requires var r := LoadLines(EntryLines(order, values, clocks)); r.ok && "" in r.values
    ensures values[""] == "" && clocks[""] == []
  {
    var i := LoadedKeyHasLine(EntryLines(order, values, clocks), "");
    assert order[i] in order;
    EmptyKeyIsEmptyEntry(order[i], values[order[i]], clocks[order[i]]);
  }

  /** What a load gives back is printable. */
  lemma LoadedIsPrintable(order: seq<string>, values: Values, clocks: VersionStore)
    requires CleanStore(order, values, clocks) && values.Keys == clocks.Keys
    requires forall k :: k in values ==> k in order
    requires LoadLines(EntryLines(order, values, clocks)) == Loaded(values, clocks, true)
    ensures Printable(values, clocks)
  {
    if "" in order {
      EmptyKeyLoadsOnlyEmpty(order, values, clocks);
    }
    forall k | k in values && k != "" ensures values[k] == "" ==> clocks[k] == [] {
      if values[k] == "" && clocks[k] != [] {
        EmptyValueStaysLost(order, values, clocks, k);
      }
    }
  }

  /** Reading a key's line under its own key last decides the value it gets. */
  lemma {:induction false} EmptyValueStaysLost(order: seq<string>, values: Values, clocks: VersionStore, k: string)
    requires CleanStore(order, values, clocks) && k in order && k != ""
    requires "" in order ==> values[""] == "" && clocks[""] == []
    requires values[k] == "" && clocks[k] != []
    requires LoadLines(EntryLines(order, values, clocks)).ok
    ensures var r := LoadLines(EntryLines(order, values, clocks)); k in r.values && r.values[k] != ""
  {
    var front, last := order[..|order| - 1], order[|order| - 1];
    assert order == front + [last];
    var line := PrintEntry(last, values[last], clocks[last]);
    EntryLinesAppend(front, last, values, clocks);
    LoadedMeansParsed(EntryLines(order, values, clocks), |front|);
    assert LoadLines(EntryLines(front, values, clocks)).ok by {
      assert EntryLines(order, values, clocks)[..|front|] == EntryLines(front, values, clocks);
    }
    LoadAppend(EntryLines(front, values, clocks), line);
    if last == k {
      EmptyValueIsLost(k, clocks[k]);
    } else {
      EmptyValueStaysLost(front, values, clocks, k);
      ParsedKeyOf(last, values[last], clocks[last]);
    }
  }

  lemma ParsedKeyOf(key: string, value: string, clock: Clock)
    requires NoSpaces(key) && NoSpaces(value) && CleanServers(clock)
    requires key == "" ==> value == "" && clock == []
    requires ParseLine(PrintEntry(key, value, clock)) != None
    ensures ParseLine(PrintEntry(key, value, clock)).value.key == key
  {
    TokensOfEntry(key, value, clock);
  }

  lemma WholePart<T>(m: map<string, T>, keys: seq<string>)
    requires forall k :: k in keys <==> k in m
    ensures Part(m, keys) == m
  {
  }

  lemma PrintableIsRestored(order: seq<string>, values: Values, clocks: VersionStore)
    requires values.Keys == clocks.Keys
    requires forall k :: k in order <==> k in values
    requires Printable(values, clocks)
    ensures RoundTrips(order, values, clocks)
  {
    LinesOfStore(order, values, clocks);
    PrintableLoads(order, values, clocks);
    WholePart(values, order);
    assert forall k :: k in order <==> k in clocks;
    WholePart(clocks, order);
  }

  lemma RestoredIsPrintable(order: seq<string>, values: Values, clocks: VersionStore)
    requires values.Keys == clocks.Keys && Enumerates(order, values.Keys)
    requires forall k :: k in order <==> k in values
    requires RoundTrips(order, values, clocks)
    ensures Printable(values, clocks)
  {
    LoadedIsClean(Lines(PrintStore(order, values, clocks)));
    assert CleanStore(order, values, clocks);
    LinesOfStore(order, values, clocks);
    LoadedIsPrintable(order, values, clocks);
  }

  /**
   The round trip, for every store and every order in which its keys are written: reading
   back what was flushed restores both maps exactly when the store is printable.
   */
  lemma RoundTripExactly(order: seq<string>, values: Values, clocks: VersionStore)
    requires values.Keys == clocks.Keys && Enumerates(order, values.Keys)
    ensures RoundTrips(order, values, clocks) <==> Printable(values, clocks)
  {
    assert forall k :: k in order <==> k in ToSet(order);
    if Printable(values, clocks) {
      PrintableIsRestored(order, values, clocks);
    }
    if RoundTrips(order, values, clocks) {
      RestoredIsPrintable(order, values, clocks);
    }
  }
}
