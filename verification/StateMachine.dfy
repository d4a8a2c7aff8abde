/** One node's (or client's) store: the two maps and the file they are flushed to. */
module Storage {
  import opened Words
  import opened Seqs
  import opened Clocks
  import opened Decimal
  import opened Siblings
  import opened Persistence

  const NO_VALUE := "__NO_VALUE_"

  type Contents = map<string, Versioned>

  /** What a read of the key answers; an absent key reads as a fixed value with the empty clock. */
  function Read(contents: Contents, key: string): Versioned {
    if key in contents then contents[key] else Versioned(NO_VALUE, [])
  }

  class StateMachine {
    const storageName: string
    var values: Values
    var versions: VersionStore
    var disk: string

    /** put, remove and read_file keep the key sets of the two maps equal. */
    ghost predicate Valid()
      reads this
    {
      values.Keys == versions.Keys
    }

    ghost function Contents(): (c: Contents)
      requires Valid()
      reads this
      ensures c.Keys == values.Keys
    {
      map k | k in values :: Versioned(values[k], versions[k])
    }

    /** The file holds the maps' text, the keys written in some order. */
    ghost predicate Flushed()
      reads this
    {
      Valid() && exists order ::
        Enumerates(order, values.Keys) && (forall k :: k in order ==> k in values && k in versions)
        && disk == PrintStore(order, values, versions)
    }

    /** The file does not lag behind the maps: they are empty, flushed, or what was read from the file. */
    ghost predicate InStep()
      reads this
    {
      Valid() && OnDisk()
    }

    ghost predicate OnDisk()
      reads this
    {
      values == map[] || Flushed() || Load(disk) == Loaded(values, versions, true)
    }

    constructor (storageName: string, disk: string)
      ensures this.storageName == storageName
      ensures InStep() && Contents() == map[] && this.disk == disk
    {
      this.storageName := storageName;
      values, versions, this.disk := map[], map[], disk;
    }

    method GetAllKeys() returns (keys: seq<string>)
      requires Valid()
      ensures Enumerates(keys, values.Keys)
    {
      keys := [];
      var rest := values.Keys;
      while rest != {}
        invariant rest <= values.Keys && NoDuplicates(keys)
        invariant forall k :: k in keys <==> k in values.Keys - rest
        decreases rest
      {
        var key :| key in rest;
        assert key !in keys;
        keys := keys + [key];
        rest := rest - {key};
      }
    }

    function GetValue(key: string): (value: string)
      requires Valid()
      reads this
      ensures value == Read(Contents(), key).value
      ensures value == if key in Contents() then Contents()[key].value else "__NO_VALUE_"
    {
      if key in values then values[key] else NO_VALUE
    }

    function GetVersion(key: string): (clock: Clock)
      requires Valid()
      reads this
      ensures clock == Read(Contents(), key).clock
      ensures clock == if key in Contents() then Contents()[key].clock else []
    {
      if key in versions then versions[key] else []
    }

    method Remove(key: string)
      requires Valid()
      modifies this
      ensures InStep() && Flushed()
      ensures Contents() == old(Contents()) - {key}
    {
      values := values - {key};
      versions := versions - {key};
      FlushToDisk();
    }

    method Put(key: string, value: string, clock: Clock)
      requires Valid()
      modifies this
      ensures InStep() && Flushed()
      ensures Contents() == old(Contents())[key := Versioned(value, clock)]
    {
      values := values[key := value];
      versions := versions[key := clock];
      FlushToDisk();
    }

    method FlushToDisk()
      requires Valid()
      modifies `disk
      ensures Flushed()
    {
      var order := GetAllKeys();
      var text := "";
      assert forall k :: k in order <==> k in ToSet(order);
      for i := 0 to |order|
        invariant forall k :: k in order[..i] ==> k in values && k in versions
        invariant text == PrintStore(order[..i], values, versions)
      {
        var key := order[i];
        assert key in order;
        var infos := ClockText(versions[key]);
        text := text + (key + (" " + (values[key] + (" " + infos))) + "\n");
        assert order[..i + 1] == order[..i] + [key];
        PrintStoreAppend(order[..i], key, values, versions);
      }
      assert order[..|order|] == order;
      disk := text;
    }

    /** Reads the file back; false when an unreadable version number throws. */
    method ReadFile() returns (ok: bool)
      modifies `values, `versions
      ensures Valid()
      ensures Load(disk) == Loaded(values, versions, ok)
    {
      values, versions := map[], map[];
      var lines := Lines(disk);
      for i := 0 to |lines|
        invariant Loaded(values, versions, true) == LoadLines(lines[..i])
      {
        var words := Tokens(lines[i]);
        var key, value := "", "";
        if |words| > 0 { key := words[0]; }
        if |words| > 1 { value := words[1]; }
        var infos := ClockOfWords(words[if |words| < 2 then |words| else 2..]);
        assert lines[..i + 1][..i] == lines[..i];
        if infos == None {
          LoadStops(lines, i + 1);
          return false;
        }
        values := values[key := value];
        versions := versions[key := infos.value];
      }
      assert lines[..|lines|] == lines;
      return true;
    }
  }

  method ClockText(clock: Clock) returns (text: string)
    ensures text == PrintClock(clock)
  {
    text := "";
    for i := 0 to |clock|
      invariant text == PrintClock(clock[..i])
    {
      text := text + (PrintStamp(clock[i]) + " ");
      assert clock[..i + 1] == clock[..i] + [clock[i]];
      PrintClockAppend(clock[..i], clock[i]);
    }
    assert clock[..|clock|] == clock;
  }

  lemma {:induction false} PrintClockAppend(c: Clock, x: Stamp)
    ensures PrintClock(c + [x]) == PrintClock(c) + (PrintStamp(x) + " ")
  {
    if c == [] {
      assert c + [x] == [x];
      assert PrintClock([x]) == PrintStamp(x) + (" " + PrintClock([x][1..]));
      assert PrintStamp(x) + (" " + "") == "" + (PrintStamp(x) + " ");
    } else {
      assert (c + [x])[1..] == c[1..] + [x];
      PrintClockAppend(c[1..], x);
      Reassociate(PrintStamp(c[0]), PrintClock(c[1..]), PrintStamp(x) + " ");
    }
  }

  /** A line is key, blank, value, blank, and for every stamp server, '@', version, blank. */
  lemma LineOfAnEntry(key: string, value: string, c: Clock, x: Stamp)
    ensures PrintEntry(key, value, []) == key + " " + value + " "
    ensures PrintEntry(key, value, c + [x])
         == PrintEntry(key, value, c) + (x.server + "@" + ToString(x.version) + " ")
  {
    PrintClockAppend(c, x);
    var stamp := PrintStamp(x) + " ";
    Reassociate(value, PrintClock(c), stamp);
    Reassociate(key, value + (" " + PrintClock(c)), stamp);
    assert PrintEntry(key, value, []) == key + (" " + (value + (" " + "")));
    assert key + (" " + (value + (" " + ""))) == key + " " + value + " ";
  }

  lemma Reassociate(a: string, b: string, c: string)
    ensures a + (" " + (b + c)) == (a + (" " + b)) + c
  {
  }

  method ClockOfWords(words: seq<string>) returns (clock: Option<Clock>)
    ensures clock == ParseClock(words)
  {
    var stamps := [];
    for i := 0 to |words|
      invariant ParseClock(words[..i]) == Some(stamps)
    {
      var stamp := ParseStamp(words[i]);
      assert words[..i + 1][..i] == words[..i];
      if stamp == None {
        ParseStops(words, i + 1);
        return None;
      }
      stamps := stamps + [stamp.value];
    }
    assert words[..|words|] == words;
    return Some(stamps);
  }

  lemma {:induction false} ParseStops(words: seq<string>, n: nat)
    requires n <= |words| && ParseClock(words[..n]) == None
    ensures ParseClock(words) == None
  {
    if n < |words| {
      assert words[..|words| - 1][..n] == words[..n];
      ParseStops(words[..|words| - 1], n);
    } else {
      assert words[..n] == words;
    }
  }

  /** Nothing is read behind the line that throws. */
  lemma {:induction false} LoadStops(lines: seq<string>, n: nat)
    requires n <= |lines| && !LoadLines(lines[..n]).ok
    ensures LoadLines(lines) == LoadLines(lines[..n])
  {
    if n < |lines| {
      assert lines[..|lines| - 1][..n] == lines[..n];
      LoadStops(lines[..|lines| - 1], n);
    } else {
      assert lines[..n] == lines;
    }
  }

  /** Reading a flushed file gives the store back exactly when the store is printable. */
  lemma FlushedStoreIsRestored(store: StateMachine)
    requires store.Flushed()
    ensures Load(store.disk) == Loaded(store.values, store.versions, true)
            <==> Printable(store.values, store.versions)
  {
    var order :| Enumerates(order,
                            store.values.Keys) && (forall k :: k in order ==> k in store.values && k in store.versions)
                 && store.disk == PrintStore(order, store.values, store.versions);
    RoundTripExactly(order, store.values, store.versions);
  }
}
