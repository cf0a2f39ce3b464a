/**
 The two operations of src/collect_data_operation.c that tie the record text
 to the URL table: printing a match that is new, and loading a file.
 */
module NewsFiles {
  import opened Wrappers
  import opened CText
  import opened HashTable
  import opened Records

  /** A file opened for appending. */
  class TextFile {
    var text: string

    constructor ()
      ensures text == ""
    {
      text := "";
    }

    /** `fprintf` with the text itself as the format: without '%' it is copied as it is. */
    method Print(s: string)
      requires '%' !in s
      modifies this
      ensures text == old(text) + s
    {
      text := text + s;
    }
  }

  // ---- Printing a match

  lemma PrintedUpTo(groups: seq<string>, i: nat)
    requires 1 <= i <= |groups| <= 9
    ensures PrintFields(groups[..i], 1) == PrintFields(groups[..i - 1], 1) + (Tag(i) + groups[i - 1]) + Tag(i)
  {
    PrintFieldsSnoc(groups[..i - 1], groups[i - 1], 1);
    assert groups[..i] == groups[..i - 1] + [groups[i - 1]];
    var before := PrintFields(groups[..i - 1], 1);
    assert before + Tag(i) + groups[i - 1] + Tag(i) == before + (Tag(i) + groups[i - 1]) + Tag(i);
  }

  lemma Regroup(a: string, b: string, c: string, d: string)
    ensures a + b + c + d == a + (b + c + d)
  {
  }

  lemma NothingPrintedYet(groups: seq<string>)
    ensures PrintFields(groups[..0], 1) == ""
  {
  }

  method PrintDate(file: TextFile, today: string)
    requires '%' !in today
    modifies file
    ensures file.text == old(file.text) + (DATE_TAG + today + DATE_TAG + "\n")
  {
    file.Print(DATE_TAG + today + DATE_TAG + "\n");
  }

  lemma RegroupRecord(a: string, r: Record)
    requires |r.fields| <= 9
    ensures a + PrintFields(r.fields, 1) + (DATE_TAG + r.date + DATE_TAG + "\n") == a + PrintRecord(r)
  {
  }

  /** One group between its tags. */
  method PrintGroup(file: TextFile, i: nat, group: string)
    requires 1 <= i <= 9 && '%' !in group
    modifies file
    ensures file.text == old(file.text) + (Tag(i) + group) + Tag(i)
  {
    var szFilePath := Tag(i) + group;
    file.Print(szFilePath);
    file.Print(Tag(i));
  }

  /** The part of `regular_match` after a match with `renum` - 1 groups was captured: the first
      group is the URL and the last one the title. A match whose URL is known prints nothing. */
  method RegularMatch(table: UrlTable, groups: seq<string>, file: TextFile, renum: int, today: string) returns (printed: bool)
    requires table.Valid()
    requires 3 <= renum <= 4 && |groups| == renum - 1
    requires groups[0] !in table.model ==> '%' !in today && forall k :: 0 <= k < |groups| ==> '%' !in groups[k]
    modifies table`chains, table`model, table`live, table.buckets, table.live, file
    ensures table.Valid() && fresh(table.live - old(table.live))
    ensures (table.model, if printed then 1 else 0)
         == Push(old(table.model), groups[0], Entry(groups[|groups| - 1], Atoi(today)))
    ensures file.text == old(file.text) + if printed then PrintRecord(Record(groups, today)) else ""
  {
    hide UrlTable.Valid, PrintFields, PrintRecord, Tag, Atoi;
    ghost var after := Push(table.model, groups[0], Entry(groups[|groups| - 1], Atoi(today)));
    var blase := 1;
    var i := 1;
    NothingPrintedYet(groups);
    printed := false;
    while i < renum
      invariant 1 <= i <= renum && (blase == 1 <==> i == 1) && printed == (i > 1)
      invariant table.Valid() && fresh(table.live - old(table.live))
      invariant i == 1 ==> table.model == old(table.model) && table.live == old(table.live)
      invariant i > 1 ==> (table.model, 1) == after && groups[0] !in old(table.model)
      invariant file.text == old(file.text) + PrintFields(groups[..i - 1], 1)
    {
      ghost var before := PrintFields(groups[..i - 1], 1);
      if blase == 1 {
        var ming := if renum == 3 then groups[1] else groups[2];
        blase := table.HashPush(groups[0], ming, 0, today);
        if blase == 0 {
          return false;
        }
        blase := 0;
        printed := true;
      }
      PrintGroup(file, i, groups[i - 1]);
      PrintedUpTo(groups, i);
      Regroup(old(file.text), before, Tag(i) + groups[i - 1], Tag(i));
      i := i + 1;
    }
    assert groups[..i - 1] == groups;
    PrintDate(file, today);
    RegroupRecord(old(file.text), Record(groups, today));
  }

  // ---- Loading a file

  function ToEntry(row: Row, today: string): Entry {
    Entry(row.szFilePath, if row.time == 0 then Atoi(today) else row.time)
  }

  /** The rows of a file pushed one after the other. */
  function PushRows(m: Table, rows: seq<Row>, today: string): Table {
    if rows == [] then m
    else
      var last := rows[|rows| - 1];
      Push(PushRows(m, rows[..|rows| - 1], today), last.url, ToEntry(last, today)).0
  }

  /** `fs` followed by what is still to be parsed, `n` bytes further on. */
  function After(fs: seq<string>, n: nat, r: Option<(seq<string>, nat)>): Option<(seq<string>, nat)> {
    match r
    case None => None
    case Some((gs, m)) => Some((fs + gs, n + m))
  }

  function AfterRows(rows: seq<Row>, r: Option<seq<Row>>): Option<seq<Row>> {
    match r
    case None => None
    case Some(more) => Some(rows + more)
  }

  /** One turn of the inner loop that reads the tagged fields. */
  lemma OneField(s: string, p: nat, i: nat, last: nat, fs: seq<string>, n: nat)
    requires 1 <= i <= last <= 9 && p <= |s|
    ensures var r := Split(s[p..], Tag(i));
            After(fs, n, ParseFields(s[p..], i, last)) ==
              if r.None? then None
              else After(fs + [r.value.0], n + r.value.1, ParseFields(s[p + r.value.1..], i + 1, last))
  {
    hide Split, Tag;
    var r := Split(s[p..], Tag(i));
    if r.Some? {
      assert s[p..][r.value.1..] == s[p + r.value.1..];
      var rest := ParseFields(s[p + r.value.1..], i + 1, last);
      if rest.Some? {
        assert fs + ([r.value.0] + rest.value.0) == fs + [r.value.0] + rest.value.0;
      }
    }
  }

  /** The inner loops: the fields with tags 1 to `num` + 1, from position `p`, and the position behind them. */
  method CollectFields(s: string, p: nat, num: nat) returns (fs: seq<string>, q: nat, defined: bool)
    requires p <= |s| && 1 <= num <= 2
    ensures defined <==> ParseFields(s[p..], 1, num + 1).Some?
    ensures defined ==> p <= q <= |s| && ParseFields(s[p..], 1, num + 1) == Some((fs, q - p))
  {
    hide Split, Tag, ParseFields;
    fs, q := [], p;
    var i := 1;
    NoFieldsYet(ParseFields(s[p..], 1, num + 1));
    while i <= num + 1
      invariant 1 <= i <= num + 2 && p <= q <= |s| && |fs| == i - 1
      invariant ParseFields(s[p..], 1, num + 1) == After(fs, q - p, ParseFields(s[q..], i, num + 1))
    {
      OneField(s, q, i, num + 1, fs, q - p);
      var r := Split(s[q..], Tag(i));
      if r.None? {
        return fs, q, false;
      }
      fs, q := fs + [r.value.0], q + r.value.1;
      i := i + 1;
    }
    NoFieldsLeft(s[q..], num, fs, q - p);
    defined := true;
  }

  lemma NoFieldsYet(r: Option<(seq<string>, nat)>)
    ensures After([], 0, r) == r
  {
    if r.Some? {
      assert [] + r.value.0 == r.value.0;
    }
  }

  lemma NoFieldsLeft(s: string, num: nat, fs: seq<string>, n: nat)
    requires 1 <= num <= 2
    ensures After(fs, n, ParseFields(s, num + 2, num + 1)) == Some((fs, n))
  {
    assert fs + [] == fs;
  }

  /** One turn of the outer loop. */
  lemma OneRecord(s: string, p: nat, num: nat, rows: seq<Row>)
    requires p + 1 < |s| && 1 <= num <= 2
    ensures var r := ParseRecord(s[p..], num);
            AfterRows(rows, ParseAll(s[p..], num)) ==
              if r.None? then None
              else AfterRows(rows + [r.value.0], ParseAll(s[p + r.value.1..], num))
    ensures ParseRecord(s[p..], num).Some? ==>
              var n := ParseRecord(s[p..], num).value.1;
              ParsedLength(s[p..], num) == n + ParsedLength(s[p + n..], num)
  {
    hide ParseRecord;
    var r := ParseRecord(s[p..], num);
    if r.Some? {
      assert s[p..][r.value.1..] == s[p + r.value.1..];
      var rest := ParseAll(s[p + r.value.1..], num);
      if rest.Some? {
        assert rows + ([r.value.0] + rest.value) == rows + [r.value.0] + rest.value;
      }
    }
  }

  lemma NoRowsYet(r: Option<seq<Row>>)
    ensures AfterRows([], r) == r
  {
    if r.Some? {
      assert [] + r.value == r.value;
    }
  }

  lemma NoRowsLeft(s: string, p: nat, num: nat, rows: seq<Row>)
    requires p <= |s| <= p + 1 && 1 <= num <= 2
    ensures AfterRows(rows, ParseAll(s[p..], num)) == Some(rows)
    ensures ParsedLength(s[p..], num) == 0
  {
    assert rows + [] == rows;
  }

  lemma PushRowsSnoc(m: Table, rows: seq<Row>, row: Row, today: string)
    ensures PushRows(m, rows + [row], today) == Push(PushRows(m, rows, today), row.url, ToEntry(row, today)).0
  {
    assert (rows + [row])[..|rows|] == rows;
  }

  /** `collect_string_into_hash`: the file's records are pushed in order into the global table, whatever table
      was passed, and their number is returned. `pStr` and `nlen` are the program's pointer into the text and its
      count of bytes, as they stand at the end; `defined` is false for a text on which C has no defined result. */
  method CollectStringIntoHash(pHashTable: UrlTable?, global: UrlTable, file: Option<string>, num: nat, today: string)
    returns (n: int, pStr: nat, nlen: nat, defined: bool)
    requires global.Valid() && 1 <= num <= 2
    modifies global`chains, global`model, global`live, global.buckets, global.live
    ensures global.Valid() && fresh(global.live - old(global.live))
    ensures pHashTable == null || file.None? ==> n == -1 && defined && global.model == old(global.model)
    ensures pHashTable != null && file.Some? ==>
              var rows := ParseAll(file.value, num);
              && (defined <==> rows.Some?)
              && pStr == nlen
              && (defined ==> nlen == ParsedLength(file.value, num))
              && (defined ==> n == |rows.value| && global.model == PushRows(old(global.model), rows.value, today))
  {
    hide UrlTable.Valid, Split, ParseFields, ParseRecord, ParseAll, ParsedLength, PushRows;
    pStr, nlen := 0, 0;
    if pHashTable == null || file.None? {
      return -1, 0, 0, true;
    }
    var s := file.value;
    var len := |s|;
    n := 0;
    ghost var rows: seq<Row> := [];
    assert s[0..] == s;
    NoRowsYet(ParseAll(s, num));
    NoPushYet(global.model, today);
    while nlen + 1 < len
      invariant pStr == nlen <= len && n == |rows|
      invariant AfterRows(rows, ParseAll(s[pStr..], num)) == ParseAll(s, num)
      invariant nlen + ParsedLength(s[pStr..], num) == ParsedLength(s, num)
      invariant global.Valid() && global.model == PushRows(old(global.model), rows, today)
      invariant fresh(global.live - old(global.live)) && global.buckets == old(global.buckets)
      decreases len - nlen
    {
      OneRecord(s, pStr, num, rows);
      var row, m, ok := CollectRecord(s, pStr, num);
      if !ok {
        return n, pStr, nlen, false;
      }
      pStr, nlen := pStr + m, nlen + m;
      var pushed := global.HashPush(row.url, row.szFilePath, row.time, today);
      PushRowsSnoc(old(global.model), rows, row, today);
      rows := rows + [row];
      n := n + 1;
    }
    NoRowsLeft(s, pStr, num, rows);
    defined := true;
  }

  lemma NoPushYet(m: Table, today: string)
    ensures PushRows(m, [], today) == m
  {
  }

  /** The tagged fields and the date of one record. */
  method CollectRecord(s: string, p: nat, num: nat) returns (row: Row, m: nat, defined: bool)
    requires p <= |s| && 1 <= num <= 2
    ensures defined <==> ParseRecord(s[p..], num).Some?
    ensures defined ==> ParseRecord(s[p..], num) == Some((row, m))
  {
    hide Split, ParseFields;
    row, m := Row("", "", 0), 0;
    var fs, q, ok := CollectFields(s, p, num);
    if !ok {
      return row, m, false;
    }
    assert s[p..][q - p..] == s[q..];
    var r := Split(s[q..], DATE_TAG);
    if r.None? {
      return row, m, false;
    }
    return Row(fs[0], fs[num], Strtol(r.value.0)), q - p + r.value.1, true;
  }
}
