/**
 From matches to files and back: any interleaving of text matches and photo
 matches leaves two files and a table that say the same thing.
 */
module EndToEnd {
  import opened Wrappers
  import opened CText
  import opened UrlHash
  import opened HashTable
  import opened Records
  import opened NewsFiles

  /** A match with three groups in all goes to the Txt file, one with four to the Jpg file. */
  datatype Match =
    | Text(url: string, title: string, date: string)
    | Photo(url: string, image: string, title: string, date: string)

  function Groups(m: Match): seq<string> {
    match m
    case Text(url, title, _) => [url, title]
    case Photo(url, image, title, _) => [url, image, title]
  }

  function ToRecord(m: Match): Record {
    Record(Groups(m), m.date)
  }

  /** The pair that a match asks the table to store. */
  function Wanted(m: Match): Entry {
    Entry(m.title, Atoi(m.date))
  }

  datatype Store = Store(table: Table, txt: string, jpg: string)

  /** What one call of `RegularMatch` does to the table and its file. */
  function Handle(st: Store, m: Match): Store {
    var (table, r) := Push(st.table, m.url, Wanted(m));
    if r == 0 then st
    else if m.Text? then Store(table, st.txt + PrintRecord(ToRecord(m)), st.jpg)
    else Store(table, st.txt, st.jpg + PrintRecord(ToRecord(m)))
  }

  function HandleAll(ms: seq<Match>): Store {
    if ms == [] then Store(map[], "", "") else Handle(HandleAll(ms[..|ms| - 1]), ms[|ms| - 1])
  }

  /** Nothing in the match is taken for a conversion by `fprintf`. */
  predicate Printable(m: Match) {
    '%' !in m.date && forall k :: 0 <= k < |Groups(m)| ==> '%' !in Groups(m)[k]
  }

  /** A match in memory, in place: the contract of the methods, as a step of the store. */
  method HandleMatch(table: UrlTable, txt: TextFile, jpg: TextFile, m: Match)
    requires table.Valid() && txt != jpg && (m.url !in table.model ==> Printable(m))
    modifies table`chains, table`model, table`live, table.buckets, table.live, txt, jpg
    ensures table.Valid() && fresh(table.live - old(table.live))
    ensures Store(table.model, txt.text, jpg.text) == Handle(old(Store(table.model, txt.text, jpg.text)), m)
  {
    hide UrlTable.Valid, PrintRecord;
    var printed := RegularMatch(table, Groups(m), if m.Text? then txt else jpg, if m.Text? then 3 else 4, m.date);
  }

  // ---- The newly pushed entries

  ghost predicate Seen(ms: seq<Match>, url: string) {
    exists m :: m in ms && m.url == url
  }

  /** The matches whose URL no earlier match had. */
  ghost function FirstMatches(ms: seq<Match>): seq<Match> {
    if ms == [] then []
    else
      var n := |ms| - 1;
      FirstMatches(ms[..n]) + if Seen(ms[..n], ms[n].url) then [] else [ms[n]]
  }

  /** The text matches, or the photo matches, in order. */
  function Select(ms: seq<Match>, text: bool): seq<Match> {
    if ms == [] then []
    else
      var n := |ms| - 1;
      Select(ms[..n], text) + if ms[n].Text? == text then [ms[n]] else []
  }

  function Kind(text: bool): nat {
    if text then 1 else 2
  }

  function ToRecords(ms: seq<Match>): (rs: seq<Record>)
    ensures |rs| == |ms|
  {
    seq(|ms|, i requires 0 <= i < |ms| => ToRecord(ms[i]))
  }

  lemma {:induction false} SelectMembers(ms: seq<Match>, text: bool)
    ensures forall m :: m in Select(ms, text) <==> m in ms && m.Text? == text
    ensures AllHave(ToRecords(Select(ms, text)), Kind(text) + 1)
  {
    if ms != [] {
      var n := |ms| - 1;
      SelectMembers(ms[..n], text);
      assert ms == ms[..n] + [ms[n]];
    }
    assert forall i :: 0 <= i < |Select(ms, text)| ==> Select(ms, text)[i] in Select(ms, text);
  }

  predicate DistinctUrls(ms: seq<Match>) {
    forall i, j :: 0 <= i < j < |ms| ==> ms[i].url != ms[j].url
  }

  lemma {:induction false} SelectDistinct(ms: seq<Match>, text: bool)
    requires DistinctUrls(ms)
    ensures DistinctUrls(Select(ms, text))
  {
    if ms != [] {
      var n := |ms| - 1;
      SelectDistinct(ms[..n], text);
      SelectMembers(ms[..n], text);
      forall i | 0 <= i < |Select(ms[..n], text)| ensures Select(ms[..n], text)[i].url != ms[n].url {
        assert Select(ms[..n], text)[i] in ms[..n];
      }
    }
  }

  /** The first matches have each URL once, and every URL that occurs. */
  lemma {:induction false} FirstMatchesCover(ms: seq<Match>)
    ensures DistinctUrls(FirstMatches(ms))
    ensures forall m :: m in FirstMatches(ms) ==> m in ms
    ensures forall url :: Seen(FirstMatches(ms), url) <==> Seen(ms, url)
  {
    if ms != [] {
      var n := |ms| - 1;
      var before := FirstMatches(ms[..n]);
      FirstMatchesCover(ms[..n]);
      assert ms == ms[..n] + [ms[n]];
      forall i | 0 <= i < |before| && !Seen(ms[..n], ms[n].url) ensures before[i].url != ms[n].url {
        assert before[i] in before;
        assert Seen(ms[..n], before[i].url);
      }
      SeenSnoc(ms[..n], ms[n]);
      SeenSnoc(before, ms[n]);
    }
  }

  lemma SeenSnoc(ms: seq<Match>, m: Match)
    ensures forall url :: Seen(ms + [m], url) <==> Seen(ms, url) || url == m.url
  {
    assert m in ms + [m];
    forall url | Seen(ms, url) ensures Seen(ms + [m], url) {
      var k :| k in ms && k.url == url;
      assert k in ms + [m];
    }
  }

  /** The file that holds the records of one kind. */
  function FileText(ms: seq<Match>, text: bool): string {
    SelectMembers(ms, text);
    PrintAll(ToRecords(Select(ms, text)), Kind(text) + 1)
  }

  lemma FileTextSnoc(ms: seq<Match>, m: Match, text: bool)
    ensures FileText(ms + [m], text) == FileText(ms, text) + if m.Text? == text then PrintRecord(ToRecord(m)) else ""
  {
    hide PrintRecord;
    assert (ms + [m])[..|ms|] == ms;
    if m.Text? == text {
      SelectMembers(ms, text);
      PrintAllSnoc(ToRecords(Select(ms, text)), ToRecord(m), Kind(text) + 1);
      assert ToRecords(Select(ms + [m], text)) == ToRecords(Select(ms, text)) + [ToRecord(m)];
    } else {
      assert Select(ms + [m], text) == Select(ms, text);
      assert FileText(ms, text) + "" == FileText(ms, text);
    }
  }

  /** The table maps every URL of the list to what its match wanted, and nothing else. */
  ghost predicate TableIs(t: Table, first: seq<Match>) {
    && (forall url :: url in t <==> Seen(first, url))
    && (forall m :: m in first ==> m.url in t && t[m.url] == Wanted(m))
  }

  /** Files and table agree with a list of matches. */
  ghost predicate Agrees(st: Store, first: seq<Match>) {
    st.txt == FileText(first, true) && st.jpg == FileText(first, false) && TableIs(st.table, first)
  }

  lemma HandleKnown(st: Store, first: seq<Match>, m: Match)
    requires Agrees(st, first) && Seen(first, m.url)
    ensures Handle(st, m) == st
  {
    hide FileText, PrintRecord;
  }

  lemma HandleNew(st: Store, first: seq<Match>, m: Match)
    requires Agrees(st, first) && !Seen(first, m.url)
    ensures Agrees(Handle(st, m), first + [m])
  {
    hide FileText, PrintRecord, Wanted;
    FileTextSnoc(first, m, true);
    FileTextSnoc(first, m, false);
    var st' := Handle(st, m);
    assert m.url !in st.table;
    assert st'.txt == FileText(first + [m], true) && st'.jpg == FileText(first + [m], false) by {
      assert st.txt + "" == st.txt && st.jpg + "" == st.jpg;
    }
    SeenSnoc(first, m);
    forall k | k in first + [m] ensures k.url in st'.table && st'.table[k.url] == Wanted(k) {
      if k in first {
        assert Seen(first, k.url);
      }
    }
  }

  /** Whatever the interleaving, the files hold exactly the first match of every URL, in order, each URL
      once over both files, and the table maps every URL to what its first match wanted. */
  lemma {:induction false} FilesHoldFirstMatches(ms: seq<Match>)
    ensures Agrees(HandleAll(ms), FirstMatches(ms))
    ensures DistinctUrls(FirstMatches(ms))
  {
    hide FileText, Handle, Agrees;
    FirstMatchesCover(ms);
    if ms == [] {
      NothingHandled(ms);
    } else {
      var n := |ms| - 1;
      var before := FirstMatches(ms[..n]);
      FilesHoldFirstMatches(ms[..n]);
      FirstMatchesCover(ms[..n]);
      if Seen(ms[..n], ms[n].url) {
        HandleKnown(HandleAll(ms[..n]), before, ms[n]);
        assert before + [] == before;
      } else {
        HandleNew(HandleAll(ms[..n]), before, ms[n]);
      }
    }
  }

  lemma NothingHandled(ms: seq<Match>)
    requires ms == []
    ensures Agrees(HandleAll(ms), FirstMatches(ms))
  {
  }

  // ---- Loading the files again

  predicate DateFits(m: Match) {
    Strtol(m.date) != 0 && -0x8000_0000 <= Strtol(m.date) < 0x8000_0000
  }

  /** What the text format and the table ask of a match: no field with its own tag in it, for which it is enough
      that there is no '<', and a date other than zero that fits in 32 bits. */
  predicate Loadable(m: Match) {
    Readable(ToRecord(m)) && DateFits(m)
  }

  /** Reading a file of printed matches gives one row for each. */
  lemma FileTextParses(ms: seq<Match>, text: bool)
    requires forall m :: m in ms ==> Loadable(m)
    ensures AllHave(ToRecords(Select(ms, text)), Kind(text) + 1)
    ensures ParseAll(FileText(ms, text), Kind(text)) == Some(RowsOf(ToRecords(Select(ms, text)), Kind(text)))
  {
    hide ParseAll, PrintAll, Readable;
    SelectMembers(ms, text);
    var rs := ToRecords(Select(ms, text));
    forall i | 0 <= i < |rs| ensures Readable(rs[i]) {
      assert Select(ms, text)[i] in Select(ms, text);
    }
    assert FileText(ms, text) == "" + PrintAll(rs, Kind(text) + 1);
    RoundTrip(FileText(ms, text), "", rs, Kind(text));
  }

  /** What a table loaded on day `today` holds for a printed match. */
  function Reloaded(m: Match, today: string): Entry {
    ToEntry(RowOf(ToRecord(m), Kind(m.Text?)), today)
  }

  /** The printed record of a match carries what the match wanted to store, on whatever day it is loaded,
      exactly when the date is not zero and fits in 32 bits. */
  lemma DateSurvives(m: Match)
    ensures (forall today :: Reloaded(m, today) == Wanted(m)) <==> DateFits(m)
  {
    AtoiIsStrtol(m.date);
    if Strtol(m.date) == 0 {
      assert Digits("", 1) == 1;
      assert Digits("1", 0) == 1;
      assert Atoi("1") == 1;
      assert Reloaded(m, "1") != Wanted(m);
    } else {
      assert Reloaded(m, "").timeNum == Strtol(m.date);
    }
  }

  /** A new match that was printed on some day stores the number whose decimal text is that day. */
  lemma DayIsStored(st: Store, m: Match, year: nat, month: nat, day: nat)
    requires m.date == Day(year, month, day) && m.url !in st.table
    requires 1 <= year <= 9999 && 1 <= month <= 12 && 1 <= day <= 31
    ensures DateFits(m) && m.url in Handle(st, m).table
    ensures Handle(st, m).table[m.url].timeNum > 0 && Decimal(Handle(st, m).table[m.url].timeNum) == m.date
  {
    hide Strtol, Atoi, Decimal, PrintRecord;
    DayIsRead(year, month, day);
    AtoiIsStrtol(m.date);
  }

  lemma RowIsWanted(m: Match, today: string)
    requires Loadable(m)
    ensures |Groups(m)| == Kind(m.Text?) + 1
    ensures RowOf(ToRecord(m), Kind(m.Text?)).url == m.url
    ensures ToEntry(RowOf(ToRecord(m), Kind(m.Text?)), today) == Wanted(m)
  {
    DateSurvives(m);
    assert Reloaded(m, today) == Wanted(m);
  }

  /** Pushing the rows of matches with new and pairwise different URLs stores what each of them wanted. */
  lemma {:induction false} PushSelected(t: Table, ms: seq<Match>, text: bool, today: string)
    requires forall m :: m in ms ==> Loadable(m) && m.Text? == text && m.url !in t
    requires DistinctUrls(ms) && AllHave(ToRecords(ms), Kind(text) + 1)
    ensures var r := PushRows(t, RowsOf(ToRecords(ms), Kind(text)), today);
            && (forall url :: url in r <==> url in t || Seen(ms, url))
            && (forall url :: url in t ==> r[url] == t[url])
            && (forall m :: m in ms ==> r[m.url] == Wanted(m))
  {
    hide Loadable, Strtol, Atoi, ToEntry;
    var rows := RowsOf(ToRecords(ms), Kind(text));
    if ms != [] {
      var n := |ms| - 1;
      var m := ms[n];
      assert ms == ms[..n] + [m];
      assert ToRecords(ms)[..n] == ToRecords(ms[..n]);
      assert rows[..n] == RowsOf(ToRecords(ms[..n]), Kind(text));
      PushSelected(t, ms[..n], text, today);
      SeenSnoc(ms[..n], m);
      RowIsWanted(m, today);
      assert rows[n] == RowOf(ToRecord(m), Kind(text));
      assert !Seen(ms[..n], m.url);
    }
  }

  lemma TableIsUnique(t: Table, u: Table, first: seq<Match>)
    requires TableIs(t, first) && TableIs(u, first)
    ensures t == u
  {
    hide Wanted;
    forall url | url in t ensures t[url] == u[url] {
      assert Seen(first, url);
    }
  }

  /** The rows of the text matches and then those of the photo matches. */
  lemma PushBothKinds(first: seq<Match>, today: string)
    requires DistinctUrls(first) && forall m :: m in first ==> Loadable(m)
    ensures AllHave(ToRecords(Select(first, true)), 2) && AllHave(ToRecords(Select(first, false)), 3)
    ensures TableIs(PushRows(PushRows(map[], RowsOf(ToRecords(Select(first, true)), 1), today),
                             RowsOf(ToRecords(Select(first, false)), 2), today), first)
  {
    hide Loadable, Wanted, PushRows, RowsOf;
    var texts, photos := Select(first, true), Select(first, false);
    SelectMembers(first, true);
    SelectMembers(first, false);
    SelectDistinct(first, true);
    SelectDistinct(first, false);
    PushSelected(map[], texts, true, today);
    var t := PushRows(map[], RowsOf(ToRecords(texts), 1), today);
    forall m | m in photos ensures m.url !in t {
      SeenApart(first, texts, m);
    }
    PushSelected(t, photos, false, today);
    SeenSplit(first);
    forall m | m in first && m.Text? ensures m.url in t {
      assert m in texts && Seen(texts, m.url);
    }
  }

  lemma SeenSplit(first: seq<Match>)
    ensures forall url :: Seen(first, url) <==> Seen(Select(first, true), url) || Seen(Select(first, false), url)
  {
    SelectMembers(first, true);
    SelectMembers(first, false);
    forall url | Seen(first, url) ensures Seen(Select(first, true), url) || Seen(Select(first, false), url) {
      var m :| m in first && m.url == url;
      assert m in Select(first, m.Text?);
    }
  }

  /** Loading the Txt file with kind 1 and then the Jpg file with kind 2 into an empty table rebuilds
      the table that the matches left, on whatever day the files are loaded. */
  lemma ReloadRebuildsTable(ms: seq<Match>, today: string)
    requires forall m :: m in FirstMatches(ms) ==> Loadable(m)
    ensures var st := HandleAll(ms);
            var txt, jpg := ParseAll(st.txt, 1), ParseAll(st.jpg, 2);
            && txt.Some? && jpg.Some?
            && PushRows(PushRows(map[], txt.value, today), jpg.value, today) == st.table
  {
    hide FileText, ParseAll, Loadable, TableIs, PushRows, RowsOf, ToRecords, Select;
    var first := FirstMatches(ms);
    FilesHoldFirstMatches(ms);
    FirstMatchesCover(ms);
    FileTextParses(first, true);
    FileTextParses(first, false);
    PushBothKinds(first, today);
    TableIsUnique(HandleAll(ms).table,
                  PushRows(PushRows(map[], RowsOf(ToRecords(Select(first, true)), 1), today),
                           RowsOf(ToRecords(Select(first, false)), 2), today), first);
  }

  /** Two different entries of a list with distinct URLs have different URLs. */
  lemma SeenApart(first: seq<Match>, texts: seq<Match>, m: Match)
    requires DistinctUrls(first) && m in first && !m.Text?
    requires forall k :: k in texts ==> k in first && k.Text?
    ensures !Seen(texts, m.url)
  {
    forall k | k in texts ensures k.url != m.url {
      var i :| 0 <= i < |first| && first[i] == k;
      var j :| 0 <= j < |first| && first[j] == m;
    }
  }

  // ---- The same for the operations in place

  lemma {:induction false} FirstMatchesGrow(ms: seq<Match>, k: nat)
    requires k <= |ms|
    ensures forall m :: m in FirstMatches(ms[..k]) ==> m in FirstMatches(ms)
    decreases |ms| - k
  {
    if k == |ms| {
      assert ms[..k] == ms;
    } else {
      assert ms[..k + 1][..k] == ms[..k];
      FirstMatchesGrow(ms, k + 1);
    }
  }

  /** A match that finds its URL new is a first match. */
  lemma NewIsFirst(ms: seq<Match>, i: nat)
    requires i < |ms| && ms[i].url !in HandleAll(ms[..i]).table
    ensures ms[i] in FirstMatches(ms)
  {
    hide HandleAll, FileText;
    FilesHoldFirstMatches(ms[..i]);
    FirstMatchesCover(ms[..i]);
    assert ms[..i + 1][..i] == ms[..i];
    assert FirstMatches(ms[..i + 1]) == FirstMatches(ms[..i]) + [ms[i]];
    FirstMatchesGrow(ms, i + 1);
  }

  method HandleEach(table: UrlTable, txt: TextFile, jpg: TextFile, ms: seq<Match>)
    requires table.Valid() && txt != jpg && Store(table.model, txt.text, jpg.text) == Store(map[], "", "")
    requires forall m :: m in FirstMatches(ms) ==> Printable(m)
    modifies table`chains, table`model, table`live, table.buckets, table.live, txt, jpg
    ensures table.Valid() && fresh(table.live - old(table.live))
    ensures Store(table.model, txt.text, jpg.text) == HandleAll(ms)
  {
    hide UrlTable.Valid, Handle;
    for i := 0 to |ms|
      invariant table.Valid() && fresh(table.live - old(table.live))
      invariant Store(table.model, txt.text, jpg.text) == HandleAll(ms[..i])
    {
      assert ms[..i + 1][..i] == ms[..i];
      if ms[i].url !in table.model {
        NewIsFirst(ms, i);
      }
      HandleMatch(table, txt, jpg, ms[i]);
    }
    assert ms[..|ms|] == ms;
  }

  /** A new table, a Txt and a Jpg file, and the matches handled one after the other. */
  method Write(ms: seq<Match>) returns (table: UrlTable, txt: string, jpg: string)
    requires forall m :: m in FirstMatches(ms) ==> Printable(m)
    ensures fresh(table) && table.Valid() && fresh(table.buckets) && fresh(table.live)
    ensures Store(table.model, txt, jpg) == HandleAll(ms)
  {
    hide UrlTable.Valid, HandleAll, Printable, FirstMatches;
    table := new UrlTable(HASH_LEN);
    var txtFile := new TextFile();
    var jpgFile := new TextFile();
    HandleEach(table, txtFile, jpgFile, ms);
    txt, jpg := txtFile.text, jpgFile.text;
  }

  /** A new table, into which the Txt file is loaded with kind 1 and then the Jpg file with kind 2. */
  method Load(txt: string, jpg: string, today: string) returns (table: UrlTable, texts: int, photos: int)
    requires ParseAll(txt, 1).Some? && ParseAll(jpg, 2).Some?
    ensures fresh(table) && table.Valid() && fresh(table.buckets) && fresh(table.live)
    ensures texts == |ParseAll(txt, 1).value| && photos == |ParseAll(jpg, 2).value|
    ensures table.model == PushRows(PushRows(map[], ParseAll(txt, 1).value, today), ParseAll(jpg, 2).value, today)
  {
    hide UrlTable.Valid, ParseAll, ParsedLength, PushRows;
    table := new UrlTable(HASH_LEN);
    var pStr, nlen, ok;
    texts, pStr, nlen, ok := CollectStringIntoHash(table, table, Some(txt), 1, today);
    photos, pStr, nlen, ok := CollectStringIntoHash(table, table, Some(jpg), 2, today);
  }

  /** Two files written by matches and loaded into a second table make it equal to the first. */
  method RebuildFromFiles(ms: seq<Match>, today: string) returns (written: UrlTable, loaded: UrlTable, texts: int, photos: int)
    requires forall m :: m in FirstMatches(ms) ==> Printable(m) && Loadable(m)
    ensures written.Valid() && loaded.Valid() && written != loaded
    ensures loaded.model == written.model == HandleAll(ms).table
    ensures texts == |Select(FirstMatches(ms), true)| && photos == |Select(FirstMatches(ms), false)|
  {
    hide *;
    ReloadRebuildsTable(ms, today);
    RowsPerFile(ms);
    var txt, jpg;
    written, txt, jpg := Write(ms);
    loaded, texts, photos := Load(txt, jpg, today);
  }

  lemma RowsPerFile(ms: seq<Match>)
    requires forall m :: m in FirstMatches(ms) ==> Loadable(m)
    ensures var txt, jpg := ParseAll(HandleAll(ms).txt, 1), ParseAll(HandleAll(ms).jpg, 2);
            && txt.Some? && |txt.value| == |Select(FirstMatches(ms), true)|
            && jpg.Some? && |jpg.value| == |Select(FirstMatches(ms), false)|
  {
    hide FileText, ParseAll, Loadable, TableIs, RowsOf, ToRecords, Select;
    FilesHoldFirstMatches(ms);
    FirstMatchesCover(ms);
    FileTextParses(FirstMatches(ms), true);
    FileTextParses(FirstMatches(ms), false);
  }
}
