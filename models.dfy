/**
 * The president record, its vote counters, its slug, the index-page
 * projection, and the tally file: one `slug,hot,not` line per record, written
 * by `save_state` and read back line by line by `load_state`.
 */
module Models {
  import opened Wrappers
  import opened Strings

  // ---------------------------------------------------------------------------
  // Records
  // ---------------------------------------------------------------------------

  datatype Thumbnail = Thumbnail(url: string, width: nat, height: nat)

  datatype Thumbnails = Thumbnails(small: Thumbnail, large: Thumbnail, full: Thumbnail)

  datatype Image = Image(url: string, filename: string, size: nat, contentType: string,
                         thumbnails: Thumbnails)

  /** The descriptive payload that the store never inspects. */
  datatype Details = Details(office: string, party: string, quote: Option<string>,
                             yearsInOffice: Option<string>, termYear: nat, termLength: nat)

  datatype President = President(name: string, details: Details, images: seq<Image>,
                                 hot: nat, not: nat)

  /** `President::default()`: empty strings, no optional fields, no images, zero counts. */
  function DefaultPresident(): President
  {
    President("", Details("", "", None, None, 0, 0), [], 0, 0)
  }

  /** The in-memory store, the map that the service keeps behind its one mutex. */
  class Presidents {
    var entries: map<string, President>

    /** `Presidents::new()`. */
    constructor ()
      ensures entries == map[]
    {
      entries := map[];
    }
  }

  /** Every key names the record whose slug it is. */
  predicate SlugKeyed(m: map<string, President>)
  {
    forall k :: k in m ==> ShortName(m[k]) == k
  }

  // ---------------------------------------------------------------------------
  // Record operations
  // ---------------------------------------------------------------------------

  function HotVote(p: President): (q: President)
    ensures q.hot == p.hot + 1 && q.not == p.not
    ensures q.name == p.name && q.details == p.details && q.images == p.images
    ensures Score(q) == Score(p) + 1
  {
    p.(hot := p.hot + 1)
  }

  function NotVote(p: President): (q: President)
    ensures q.not == p.not + 1 && q.hot == p.hot
    ensures q.name == p.name && q.details == p.details && q.images == p.images
    ensures Score(q) == Score(p) - 1
  {
    p.(not := p.not + 1)
  }

  /** The signed difference of the two counters; it is negative when `not` leads. */
  function Score(p: President): int
  {
    p.hot as int - p.not as int
  }

  /** Lower-case the name, drop every '.', turn every ' ' into '_'. */
  function Slug(name: string): string
  {
    ReplaceChar(RemoveAll(ToLower(name), '.'), ' ', '_')
  }

  function ShortName(p: President): string
  {
    Slug(p.name)
  }

  /** A slug holds no '.', no ' ' and no upper-case letter. */
  lemma SlugAlphabet(name: string)
    ensures '.' !in Slug(name) && ' ' !in Slug(name)
    ensures forall c :: c in Slug(name) ==> !IsUpper(c)
  {
    var lowered := ToLower(name);
    var undotted := RemoveAll(lowered, '.');
    LowerHasNoUpper(name);
    RemoveAllFrom(lowered, '.');
    ReplaceCharFrom(undotted, ' ', '_');
  }

  lemma SlugIdempotent(name: string)
    ensures Slug(Slug(name)) == Slug(name)
  {
    var s := Slug(name);
    SlugAlphabet(name);
    LowerKeepsLower(s);
    RemoveAllFrom(s, '.');
    ReplaceCharFrom(s, ' ', '_');
  }

  lemma SlugOfKennedy()
    ensures Slug("John F. Kennedy") == "john_f_kennedy"
  {
    KennedyLowered();
    KennedyWithoutDots();
    KennedyUnderscored();
  }

  lemma SlugOfWashington()
    ensures Slug("George Washington") == "george_washington"
  {
    WashingtonLowered();
    RemoveAllFrom("george washington", '.');
    WashingtonUnderscored();
  }

  // The evaluation steps of the two examples, one string operation each.

  lemma KennedyLowered() ensures ToLower("John F. Kennedy") == "john f. kennedy" {}

  lemma KennedyWithoutDots() ensures RemoveAll("john f. kennedy", '.') == "john f kennedy"
  {
    var a, b := "john f", " kennedy";
    assert '.' !in a && '.' !in b;
    assert "john f. kennedy" == a + ['.'] + b;
    assert a + b == "john f kennedy";
    RemoveOne(a, '.', b);
  }

  lemma KennedyUnderscored() ensures ReplaceChar("john f kennedy", ' ', '_') == "john_f_kennedy" {}

  lemma WashingtonLowered()
    ensures ToLower("George Washington") == "george washington"
    ensures '.' !in "george washington"
  {}

  lemma WashingtonUnderscored() ensures ReplaceChar("george washington", ' ', '_') == "george_washington" {}

  datatype IndexItem = IndexItem(name: string, shortName: string, score: int, imageUrl: string)

  /** The large thumbnail of the first image, or "" when there is none. */
  function ImageUrl(p: President): string
  {
    if |p.images| == 0 then "" else p.images[0].thumbnails.large.url
  }

  function TemplateItem(p: President): IndexItem
  {
    IndexItem(p.name, ShortName(p), Score(p), ImageUrl(p))
  }

  // ---------------------------------------------------------------------------
  // Enumerating the store
  // ---------------------------------------------------------------------------

  predicate Distinct(s: seq<string>)
  {
    forall i, j :: 0 <= i < j < |s| ==> s[i] != s[j]
  }

  /**
   * `order` lists every key of the set exactly once: the order in which
   * `HashMap::values()` happens to visit the entries.
   */
  predicate Enumerates(order: seq<string>, keys: set<string>)
  {
    && Distinct(order)
    && (forall i :: 0 <= i < |order| ==> order[i] in keys)
    && (forall k :: k in keys ==> k in order)
  }

  lemma {:induction false} EnumerationSize(order: seq<string>, keys: set<string>)
    requires Enumerates(order, keys)
    ensures |order| == |keys|
  {
    if order == [] {
      assert forall k :: k in keys ==> false;
      assert keys == {};
    } else {
      var rest := keys - {order[0]};
      assert order == [order[0]] + order[1..];
      forall k | k in rest ensures k in order[1..] {
        var i :| 0 <= i < |order| && order[i] == k;
        assert i != 0;
        assert order[1..][i - 1] == k;
      }
      assert Enumerates(order[1..], rest);
      EnumerationSize(order[1..], rest);
    }
  }

  /** `to_index_items`: one index item per store value, in iteration order. */
  function ToIndexItems(m: map<string, President>, order: seq<string>): seq<IndexItem>
    requires Enumerates(order, m.Keys)
  {
    seq(|order|, i requires 0 <= i < |order| => TemplateItem(m[order[i]]))
  }

  /** The items list every record of the store exactly once. */
  lemma IndexItemsCoverStore(m: map<string, President>, order: seq<string>)
    requires Enumerates(order, m.Keys)
    ensures var items := ToIndexItems(m, order);
      && |items| == |m|
      && (forall k :: k in m ==>
            exists i :: (0 <= i < |items| && order[i] == k && items[i] == TemplateItem(m[k])))
  {
    EnumerationSize(order, m.Keys);
    var items := ToIndexItems(m, order);
    forall k | k in m
      ensures exists i :: (0 <= i < |items| && order[i] == k && items[i] == TemplateItem(m[k]))
    {
      var i :| 0 <= i < |order| && order[i] == k;
      assert items[i] == TemplateItem(m[k]);
    }
  }

  /** What the template shows for the `i`-th item: the record's name, slug, signed score and picture. */
  lemma IndexItemShows(m: map<string, President>, order: seq<string>, i: nat)
    requires Enumerates(order, m.Keys) && i < |order|
    ensures var item, p := ToIndexItems(m, order)[i], m[order[i]];
      && item.name == p.name && item.shortName == ShortName(p)
      && item.score == p.hot - p.not
      && item.imageUrl == (if p.images == [] then "" else p.images[0].thumbnails.large.url)
  {
  }

  // ---------------------------------------------------------------------------
  // save_state: the tally file
  // ---------------------------------------------------------------------------

  /** The text of a tally line without its terminator: `slug,hot,not`. */
  function Record(p: President): string
  {
    ShortName(p) + "," + Decimal(p.hot) + "," + Decimal(p.not)
  }

  /** The chunk `format!("{},{},{}\n", ...)` produces for one record. */
  function FormatLine(p: President): string
  {
    Record(p) + "\n"
  }

  /** The chunks `save_state` writes when the store iterates in `order`. */
  function SaveLines(m: map<string, President>, order: seq<string>): seq<string>
    requires forall i :: 0 <= i < |order| ==> order[i] in m
  {
    seq(|order|, i requires 0 <= i < |order| => FormatLine(m[order[i]]))
  }

  lemma SaveOneLinePerRecord(m: map<string, President>, order: seq<string>)
    requires Enumerates(order, m.Keys)
    ensures var lines := SaveLines(m, order);
      && |lines| == |m|
      && (forall k :: k in m ==>
            exists i :: (0 <= i < |lines| && order[i] == k
              && lines[i] == ShortName(m[k]) + "," + Decimal(m[k].hot) + "," + Decimal(m[k].not) + "\n"))
  {
    EnumerationSize(order, m.Keys);
    var lines := SaveLines(m, order);
    forall k | k in m
      ensures exists i :: (0 <= i < |lines| && order[i] == k
        && lines[i] == ShortName(m[k]) + "," + Decimal(m[k].hot) + "," + Decimal(m[k].not) + "\n")
    {
      var i :| 0 <= i < |order| && order[i] == k;
      assert lines[i] == FormatLine(m[k]);
    }
  }

  /**
   * `save_state`: visit the values in the map's own order and write one line
   * for each. The order actually taken is returned as `order`.
   */
  method SaveState(store: Presidents) returns (written: seq<string>, ghost order: seq<string>)
    ensures Enumerates(order, store.entries.Keys)
    ensures written == SaveLines(store.entries, order)
  {
    var entries := store.entries;
    var remaining := entries.Keys;
    written, order := [], [];
    while remaining != {}
      invariant remaining <= entries.Keys
      invariant Distinct(order)
      invariant forall i :: 0 <= i < |order| ==> order[i] in entries && order[i] !in remaining
      invariant forall k :: k in entries && k !in remaining ==> k in order
      invariant written == SaveLines(entries, order)
      decreases remaining
    {
      var key :| key in remaining;
      written := written + [FormatLine(entries[key])];
      order := order + [key];
      remaining := remaining - {key};
    }
  }

  // ---------------------------------------------------------------------------
  // load_state: parsing the tally file back into the store
  // ---------------------------------------------------------------------------

  /**
   * How far one line of the file gets: the `unwrap` of the second or third
   * field fails when the line has fewer fields, a count that does not parse
   * fails its `unwrap` after the default entry was inserted (and, for `not`,
   * after `hot` was set), and a line with three good fields sets both counts.
   */
  datatype ParsedLine =
    | MissingField
    | BadHot(key: string)
    | BadNot(key: string, hot: nat)
    | Counts(key: string, hot: nat, not: nat)

  /** The key a line is about: its first comma-separated field. */
  function LineKey(line: string): string
  {
    Split(line, ',')[0]
  }

  function ParseLine(line: string): (r: ParsedLine)
    ensures !r.MissingField? ==> r.key == LineKey(line)
  {
    var fields := Split(line, ',');
    if |fields| < 3 then MissingField
    else
      match ParseUsize(fields[1])
      case None => BadHot(fields[0])
      case Some(h) =>
        match ParseUsize(fields[2])
        case None => BadNot(fields[0], h)
        case Some(n) => Counts(fields[0], h, n)
  }

  /**
   * A line parses to its counts exactly when it has at least three fields and
   * the second and third are counts; fields after the third are ignored.
   */
  lemma ParseLineCounts(line: string)
    ensures var f := Split(line, ',');
      ParseLine(line).Counts? <==> |f| >= 3 && ParseUsize(f[1]).Some? && ParseUsize(f[2]).Some?
  {
  }

  /** A line whose first three fields are a key and two counts parses to those counts. */
  lemma ParseFields(line: string, key: string, h: nat, n: nat)
    requires h <= USIZE_MAX && n <= USIZE_MAX
    requires var f := Split(line, ',');
      |f| >= 3 && f[0] == key && f[1] == Decimal(h) && f[2] == Decimal(n)
    ensures ParseLine(line) == Counts(key, h, n)
  {
    ParseDecimal(h);
    ParseDecimal(n);
  }

  /** A run of decimal digits holds no character that is not a digit. */
  lemma DecimalWithout(n: nat, c: char)
    requires !IsDigit(c)
    ensures c !in Decimal(n)
  {
    var d := Decimal(n);
    assert forall i :: 0 <= i < |d| ==> d[i] != c;
  }

  /** A line `key,hot,not`, possibly followed by more comma-separated fields. */
  lemma ParseCountsLine(key: string, h: nat, n: nat, tail: string)
    requires ',' !in key && h <= USIZE_MAX && n <= USIZE_MAX
    requires tail == [] || tail[0] == ','
    ensures ParseLine(key + "," + Decimal(h) + "," + Decimal(n) + tail) == Counts(key, h, n)
  {
    var hs, ns := Decimal(h), Decimal(n);
    DecimalWithout(h, ',');
    DecimalWithout(n, ',');
    var line := key + "," + hs + "," + ns + tail;
    assert line == key + [','] + (hs + [','] + (ns + tail));
    SplitThree(key, hs, ns, ',', tail);
    ParseFields(line, key, h, n);
  }

  /**
   * The store after some lines were applied, and whether loading went on to
   * completion (`ok`) or stopped at an `unwrap` that panicked.
   */
  datatype LoadOutcome = LoadOutcome(entries: map<string, President>, ok: bool)

  /** `entry(key).or_insert(Default::default())`, read back. */
  function Entry(m: map<string, President>, key: string): President
  {
    if key in m then m[key] else DefaultPresident()
  }

  /** One line applied to the store, up to the point where it succeeds or panics. */
  function LoadLine(m: map<string, President>, line: string): LoadOutcome
  {
    match ParseLine(line)
    case MissingField => LoadOutcome(m, false)
    case BadHot(key) => LoadOutcome(m[key := Entry(m, key)], false)
    case BadNot(key, h) => LoadOutcome(m[key := Entry(m, key).(hot := h)], false)
    case Counts(key, h, n) => LoadOutcome(m[key := Entry(m, key).(hot := h, not := n)], true)
  }

  /** The lines in file order; the first line that panics ends the load. */
  function LoadLines(m: map<string, President>, lines: seq<string>): LoadOutcome
    decreases |lines|
  {
    if lines == [] then LoadOutcome(m, true)
    else
      var r := LoadLine(m, lines[0]);
      if !r.ok then r else LoadLines(r.entries, lines[1..])
  }

  /**
   * Only the line's own key can change, whether the line succeeds or panics.
   * The line succeeds exactly when it parses to counts, and then that entry
   * keeps its descriptive fields (a default record's when the key was new)
   * and takes the two counts.
   */
  lemma LoadLineEffect(m: map<string, President>, line: string)
    ensures var r := LoadLine(m, line); var key := LineKey(line);
      && (forall k :: k != key ==> (k in r.entries <==> k in m) && (k in m ==> r.entries[k] == m[k]))
      && (r.ok <==> ParseLine(line).Counts?)
      && (r.ok ==>
            && key in r.entries
            && r.entries[key].name == Entry(m, key).name
            && r.entries[key].details == Entry(m, key).details
            && r.entries[key].images == Entry(m, key).images
            && r.entries[key].hot == ParseLine(line).hot
            && r.entries[key].not == ParseLine(line).not)
      && (r.ok && key !in m ==>
            r.entries[key] == DefaultPresident().(hot := ParseLine(line).hot, not := ParseLine(line).not))
  {
  }

  /** A line without three fields or with a count that does not parse makes the whole load fail. */
  lemma {:induction false} LoadFails(m: map<string, President>, lines: seq<string>, j: nat)
    requires j < |lines| && !ParseLine(lines[j]).Counts?
    ensures !LoadLines(m, lines).ok
    decreases |lines|
  {
    var r := LoadLine(m, lines[0]);
    LoadLineEffect(m, lines[0]);
    if r.ok {
      assert lines[1..][j - 1] == lines[j];
      LoadFails(r.entries, lines[1..], j - 1);
    }
  }

  /** A file whose every line yields counts loads to completion. */
  lemma {:induction false} LoadSucceeds(m: map<string, President>, lines: seq<string>)
    requires forall i :: 0 <= i < |lines| ==> ParseLine(lines[i]).Counts?
    ensures LoadLines(m, lines).ok
    decreases |lines|
  {
    if lines != [] {
      LoadLineEffect(m, lines[0]);
      assert forall i :: 0 <= i < |lines[1..]| ==> lines[1..][i] == lines[i + 1];
      LoadSucceeds(LoadLine(m, lines[0]).entries, lines[1..]);
    }
  }

  /** A load completes exactly when every line yields counts. */
  lemma LoadCompletes(m: map<string, President>, lines: seq<string>)
    ensures LoadLines(m, lines).ok <==> forall i :: 0 <= i < |lines| ==> ParseLine(lines[i]).Counts?
  {
    if forall i :: 0 <= i < |lines| ==> ParseLine(lines[i]).Counts? {
      LoadSucceeds(m, lines);
    } else {
      var j :| 0 <= j < |lines| && !ParseLine(lines[j]).Counts?;
      LoadFails(m, lines, j);
    }
  }

  /** A key that no line names is left untouched, whether or not the load runs to completion. */
  lemma {:induction false} LoadUntouched(m: map<string, President>, lines: seq<string>, k: string)
    requires forall i :: 0 <= i < |lines| ==> LineKey(lines[i]) != k
    ensures var r := LoadLines(m, lines);
      (k in r.entries <==> k in m) && (k in m ==> r.entries[k] == m[k])
    decreases |lines|
  {
    if lines != [] {
      LoadLineEffect(m, lines[0]);
      var r := LoadLine(m, lines[0]);
      if r.ok {
        LoadUntouched(r.entries, lines[1..], k);
      }
    }
  }

  /** When a key repeats, the counts of its last line are the ones kept. */
  lemma {:induction false} LoadLastWins(m: map<string, President>, lines: seq<string>, j: nat)
    requires j < |lines|
    requires LoadLines(m, lines).ok
    requires forall i :: j < i < |lines| ==> LineKey(lines[i]) != LineKey(lines[j])
    ensures var r := LoadLines(m, lines); var line := ParseLine(lines[j]);
      && line.Counts?
      && line.key in r.entries
      && r.entries[line.key].hot == line.hot
      && r.entries[line.key].not == line.not
    decreases |lines|
  {
    var r := LoadLine(m, lines[0]);
    LoadLineEffect(m, lines[0]);
    assert r.ok;
    assert LoadLines(m, lines) == LoadLines(r.entries, lines[1..]);
    assert forall i :: 0 <= i < |lines[1..]| ==> lines[1..][i] == lines[i + 1];
    if j == 0 {
      LoadUntouched(r.entries, lines[1..], LineKey(lines[0]));
    } else {
      LoadLastWins(r.entries, lines[1..], j - 1);
    }
  }

  /** The store holds no slug that would break a tally line, and every count fits a `usize`. */
  predicate Saveable(m: map<string, President>)
  {
    forall k :: k in m ==>
      && ',' !in k && '\n' !in k
      && m[k].hot <= USIZE_MAX && m[k].not <= USIZE_MAX
  }

  /** A record's tally line parses back to its slug and counts, and is a single line. */
  lemma RecordParses(p: President)
    requires ',' !in ShortName(p) && '\n' !in ShortName(p)
    requires p.hot <= USIZE_MAX && p.not <= USIZE_MAX
    ensures ParseLine(Record(p)) == Counts(ShortName(p), p.hot, p.not)
    ensures '\n' !in Record(p) && !EndsWithCR(Record(p))
  {
    var hs, ns := Decimal(p.hot), Decimal(p.not);
    assert Record(p) == ShortName(p) + "," + hs + "," + ns + [];
    ParseCountsLine(ShortName(p), p.hot, p.not, []);
    DecimalWithout(p.hot, '\n');
    DecimalWithout(p.not, '\n');
    assert Record(p)[|Record(p)| - 1] == ns[|ns| - 1];
  }

  /** The record that loading `m`'s tally line for key `k` leaves in a store that held `s`. */
  function Restored(s: map<string, President>, m: map<string, President>, k: string): President
    requires k in m
  {
    Entry(s, k).(hot := m[k].hot, not := m[k].not)
  }

  /** The store `s` after the tally lines of `order`'s records of `m` were applied. */
  function Overlay(s: map<string, President>, m: map<string, President>, order: seq<string>): map<string, President>
    requires forall i :: 0 <= i < |order| ==> order[i] in m
    decreases |order|
  {
    if order == [] then s
    else Overlay(s[order[0] := Restored(s, m, order[0])], m, order[1..])
  }

  lemma {:induction false} OverlayAt(s: map<string, President>, m: map<string, President>, order: seq<string>, k: string)
    requires Distinct(order)
    requires forall i :: 0 <= i < |order| ==> order[i] in m
    ensures k in Overlay(s, m, order) <==> k in s || k in order
    ensures k in order ==> Overlay(s, m, order)[k] == Restored(s, m, k)
    ensures k in s && k !in order ==> Overlay(s, m, order)[k] == s[k]
    decreases |order|
  {
    if order != [] {
      var k0 := order[0];
      var s1 := s[k0 := Restored(s, m, k0)];
      OverlayAt(s1, m, order[1..], k);
      assert order == [k0] + order[1..];
      assert forall i :: 0 <= i < |order[1..]| ==> order[1..][i] == order[i + 1];
      assert k == k0 ==> k !in order[1..];
    }
  }

  function Records(m: map<string, President>, order: seq<string>): seq<string>
    requires forall i :: 0 <= i < |order| ==> order[i] in m
  {
    seq(|order|, i requires 0 <= i < |order| => Record(m[order[i]]))
  }

  lemma {:induction false} LoadRecords(s: map<string, President>, m: map<string, President>, order: seq<string>)
    requires SlugKeyed(m) && Saveable(m)
    requires forall i :: 0 <= i < |order| ==> order[i] in m
    ensures LoadLines(s, Records(m, order)) == LoadOutcome(Overlay(s, m, order), true)
    decreases |order|
  {
    var lines := Records(m, order);
    if order != [] {
      var k0 := order[0];
      assert lines[0] == Record(m[k0]);
      LoadRecordLine(s, m, k0);
      assert lines[1..] == Records(m, order[1..]);
      LoadRecords(s[k0 := Restored(s, m, k0)], m, order[1..]);
    }
  }

  /** The saved line of the record under `k` restores that record's counts under `k`. */
  lemma LoadRecordLine(s: map<string, President>, m: map<string, President>, k: string)
    requires SlugKeyed(m) && Saveable(m) && k in m
    ensures LoadLine(s, Record(m[k])) == LoadOutcome(s[k := Restored(s, m, k)], true)
  {
    RecordParses(m[k]);
    assert ShortName(m[k]) == k;
  }

  /**
   * Saving a slug-keyed store and loading the file into any store `s0` restores
   * every saved record's `hot` and `not` under its key; the other fields of an
   * entry come from `s0` (or are the default record's), and entries of `s0`
   * that were not saved are left as they were.
   */
  lemma SaveLoadRoundTrip(m: map<string, President>, order: seq<string>, s0: map<string, President>)
    requires SlugKeyed(m) && Saveable(m) && Enumerates(order, m.Keys)
    ensures var r := LoadLines(s0, ReadLines(Concat(SaveLines(m, order))));
      && r.ok
      && (forall k :: k in r.entries <==> k in s0 || k in m)
      && (forall k :: k in m ==>
            && r.entries[k].hot == m[k].hot && r.entries[k].not == m[k].not
            && r.entries[k] == Entry(s0, k).(hot := m[k].hot, not := m[k].not))
      && (forall k :: k in s0 && k !in m ==> r.entries[k] == s0[k])
  {
    var recs := Records(m, order);
    assert SaveLines(m, order) == Terminated(recs);
    forall i | 0 <= i < |recs| ensures '\n' !in recs[i] && !EndsWithCR(recs[i]) {
      RecordParses(m[order[i]]);
    }
    ReadTerminated(recs);
    LoadRecords(s0, m, order);
    forall k ensures k in Overlay(s0, m, order) <==> k in s0 || k in m {
      OverlayAt(s0, m, order, k);
    }
    forall k | k in Overlay(s0, m, order)
      ensures k in m ==> Overlay(s0, m, order)[k] == Restored(s0, m, k)
      ensures k in s0 && k !in m ==> Overlay(s0, m, order)[k] == s0[k]
    {
      OverlayAt(s0, m, order, k);
    }
  }

  /** Saving a slug-keyed store and loading the file back into it gives the same store. */
  lemma SaveLoadIdentity(m: map<string, President>, order: seq<string>)
    requires SlugKeyed(m) && Saveable(m) && Enumerates(order, m.Keys)
    ensures LoadLines(m, ReadLines(Concat(SaveLines(m, order)))) == LoadOutcome(m, true)
  {
    SaveLoadRoundTrip(m, order, m);
    var r := LoadLines(m, ReadLines(Concat(SaveLines(m, order))));
    assert r.entries == m;
  }

  /**
   * `load_state`: when the save file opens, apply its lines in order. `file`
   * is the file's contents, or None when it cannot be opened; `ok` is false
   * when an `unwrap` panicked, and then the store is as the panic left it.
   */
  method LoadState(store: Presidents, file: Option<string>) returns (ok: bool)
    modifies store
    ensures file.None? ==> ok && store.entries == old(store.entries)
    ensures file.Some? ==>
      LoadOutcome(store.entries, ok) == LoadLines(old(store.entries), ReadLines(file.value))
  {
    ok := true;
    if file.Some? {
      var lines := ReadLines(file.value);
      var i := 0;
      while i < |lines| && ok
        invariant 0 <= i <= |lines|
        invariant LoadLines(old(store.entries), lines) ==
          if ok then LoadLines(store.entries, lines[i..]) else LoadOutcome(store.entries, false)
      {
        assert lines[i..][1..] == lines[i + 1..];
        var r := LoadLine(store.entries, lines[i]);
        store.entries := r.entries;
        ok := r.ok;
        i := i + 1;
      }
    }
  }
}
