/**
 The tagged text records of src/collect_data_operation.c: what is printed for
 a page entry, and how the text is read back. Positions are counted from the
 place the reading pointer has reached, so a text here is what is left of it.
 */
module Records {
  import opened Wrappers
  import opened CText

  // ---- strstr and split_string

  predicate At(s: string, pat: string, k: int) {
    0 <= k <= k + |pat| <= |s| && s[k..k + |pat|] == pat
  }

  /** The first occurrence of a pattern. */
  function StrStr(s: string, pat: string): (r: Option<nat>)
    requires pat != []
    ensures match r
            case Some(k) => At(s, pat, k) && forall j :: 0 <= j < k ==> !At(s, pat, j)
            case None => forall j :: !At(s, pat, j)
  {
    if |s| < |pat| then None
    else if s[..|pat|] == pat then assert At(s, pat, 0); Some(0)
    else
      assert !At(s, pat, 0);
      assert forall j :: At(s, pat, j) <==> j > 0 && At(s[1..], pat, j - 1);
      var rest := StrStr(s[1..], pat);
      match rest
      case None => None
      case Some(k) => assert At(s, pat, k + 1); Some(k + 1)
  }

  /** `split_string`: the text between the first tag and the first tag found three bytes further on,
      and the distance to the byte after the latter. `None` stands for what C leaves undefined:
      a tag that is not found, or a copy of negative length. */
  function Split(s: string, tag: string): (r: Option<(string, nat)>)
    requires |tag| == 3
    ensures r.Some? ==> 6 <= r.value.1 <= |s|
  {
    if |s| < 3 then None
    else
      var idex, jdex := StrStr(s, tag), StrStr(s[3..], tag);
      if idex.None? || jdex.None? || jdex.value < idex.value then None
      else Some((s[idex.value + 3..jdex.value + 3], jdex.value + 6))
  }

  /** A tag: only its first byte is '<'. */
  predicate IsTag(tag: string) {
    |tag| == 3 && tag[0] == '<' && tag[1] != '<' && tag[2] != '<'
  }

  /** The text does not contain the tag. */
  predicate TagFree(f: string, tag: string) {
    forall j :: 0 <= j < |f| ==> !At(f, tag, j)
  }

  /** At most two bytes, none of them '<', such as the line end left by the record before. */
  predicate IsLead(lead: string) {
    |lead| <= 2 && '<' !in lead
  }

  lemma NotAt(s: string, tag: string, j: nat, i: nat)
    requires i < |tag| && j + i < |s| && s[j + i] != tag[i]
    ensures !At(s, tag, j)
  {
    if j + |tag| <= |s| {
      assert s[j..j + |tag|][i] == s[j + i];
    }
  }

  lemma OpeningTag(lead: string, tag: string, rest: string)
    requires IsTag(tag) && IsLead(lead)
    ensures StrStr(lead + tag + rest, tag) == Some(|lead|)
  {
    var s := lead + tag + rest;
    assert s[|lead|..|lead| + 3] == tag;
    assert At(s, tag, |lead|);
    forall j | 0 <= j < |lead| ensures !At(s, tag, j) {
      assert s[j] == lead[j] != '<';
      NotAt(s, tag, j, 0);
    }
  }

  /** After a stretch without '<' and a field, the first tag found is the closing one,
      unless the field contains the tag itself. */
  lemma ClosingTag(stub: string, f: string, tag: string, rest: string)
    requires IsTag(tag) && '<' !in stub
    ensures var r := StrStr(stub + f + tag + rest, tag);
            if TagFree(f, tag) then r == Some(|stub| + |f|) else r.Some? && r.value < |stub| + |f|
  {
    var s := stub + f + tag + rest;
    var n := |stub| + |f|;
    assert s[n..n + 3] == tag;
    assert At(s, tag, n);
    forall j | 0 <= j < n ensures At(s, tag, j) ==> At(f, tag, j - |stub|) {
      if j < |stub| {
        assert s[j] == stub[j];
        NotAt(s, tag, j, 0);
      } else if j + 3 > n {
        assert s[n] == s[n..n + 3][0];
        NotAt(s, tag, j, n - j);
      } else {
        assert f[j - |stub|..j - |stub| + 3] == s[j..j + 3];
      }
    }
    forall j | At(f, tag, j) ensures At(s, tag, |stub| + j) {
      assert s[|stub| + j..|stub| + j + 3] == f[j..j + 3];
    }
  }

  /** Where the parts of a tagged field lie. Three bytes into the text the opening tag is out of sight. */
  lemma Layout(s: string, lead: string, tag: string, f: string, rest: string) returns (stub: string)
    requires IsTag(tag) && IsLead(lead) && s == lead + tag + f + tag + rest
    ensures '<' !in stub && |stub| == |lead|
    ensures s[3..] == stub + f + tag + rest
    ensures s == lead + tag + (f + tag + rest)
    ensures s[|lead| + 3..|lead| + |f| + 3] == f
    ensures s[|lead| + |f| + 6..] == rest
  {
    stub := (lead + tag)[3..];
    assert forall k :: 0 <= k < |stub| ==> stub[k] == tag[k + 3 - |lead|];
  }

  /** Reading back one tagged field succeeds exactly when the field does not contain its own tag,
      whether or not a line end comes first. */
  lemma SplitReadsField(s: string, lead: string, tag: string, f: string, rest: string)
    requires IsTag(tag) && IsLead(lead) && s == lead + tag + f + tag + rest
    ensures Split(s, tag) == Some((f, |lead| + |f| + 6)) <==> TagFree(f, tag)
    ensures s[|lead| + |f| + 6..] == rest
  {
    hide TagFree, StrStr, At;
    var stub := Layout(s, lead, tag, f, rest);
    OpeningTag(lead, tag, f + tag + rest);
    ClosingTag(stub, f, tag, rest);
  }

  // ---- Printing

  /** "<i>" for a group number of one digit. */
  function Tag(i: nat): (tag: string)
    requires 1 <= i <= 9
    ensures IsTag(tag) && |tag| == 3
  {
    ['<', "0123456789"[i], '>']
  }

  const DATE_TAG := "<t>"

  /** The captured groups of a match, in order, and the day it was printed. */
  datatype Record = Record(fields: seq<string>, date: string)

  /** The groups from number `i` on, each between two copies of its tag. */
  function PrintFields(fields: seq<string>, i: nat): string
    requires 1 <= i && i + |fields| <= 10
  {
    if fields == [] then ""
    else Tag(i) + fields[0] + Tag(i) + PrintFields(fields[1..], i + 1)
  }

  function PrintRecord(r: Record): string
    requires |r.fields| <= 9
  {
    PrintFields(r.fields, 1) + DATE_TAG + r.date + DATE_TAG + "\n"
  }

  lemma TagTexts()
    ensures Tag(1) == "<1>" && Tag(2) == "<2>" && Tag(3) == "<3>"
  {
  }

  lemma OneField(f: string, fields: seq<string>, i: nat)
    requires 1 <= i && i + |fields| < 10
    ensures PrintFields([f] + fields, i) == Tag(i) + f + Tag(i) + PrintFields(fields, i + 1)
  {
    hide Tag;
    assert ([f] + fields)[1..] == fields;
  }

  lemma NoField(i: nat)
    requires 1 <= i <= 10
    ensures PrintFields([], i) == ""
  {
  }

  lemma Flatten(a: string, b: string, c: string, d: string)
    ensures a + (b + (c + "")) + d == a + b + c + d && a + (b + "") + d == a + b + d
  {
    assert c + "" == c && b + "" == b;
  }

  /** The lines that a text match and a photo match print. */
  lemma PrintedLines(url: string, image: string, title: string, date: string)
    ensures PrintRecord(Record([url, title], date))
         == ("<1>" + url + "<1>") + ("<2>" + title + "<2>") + ("<t>" + date + "<t>" + "\n")
    ensures PrintRecord(Record([url, image, title], date))
         == ("<1>" + url + "<1>") + ("<2>" + image + "<2>") + ("<3>" + title + "<3>") + ("<t>" + date + "<t>" + "\n")
  {
    TagTexts();
    NoField(3);
    NoField(4);
    OneField(title, [], 2);
    OneField(url, [title], 1);
    OneField(title, [], 3);
    OneField(image, [title], 2);
    OneField(url, [image, title], 1);
    assert [title] + [] == [title] && [url] + [title] == [url, title];
    assert [image] + [title] == [image, title] && [url] + [image, title] == [url, image, title];
    var fields2, fields3 := PrintFields([url, title], 1), PrintFields([url, image, title], 1);
    hide PrintFields, Tag;
    var one, end := "<1>" + url + "<1>", "<t>" + date + "<t>" + "\n";
    Flatten(one, "<2>" + title + "<2>", "", end);
    Flatten(one, "<2>" + image + "<2>", "<3>" + title + "<3>", end);
    DatedLine(fields2, date);
    DatedLine(fields3, date);
    assert PrintRecord(Record([url, title], date)) == fields2 + end;
    assert PrintRecord(Record([url, image, title], date)) == fields3 + end;
  }

  lemma DatedLine(fields: string, date: string)
    ensures fields + DATE_TAG + date + DATE_TAG + "\n" == fields + ("<t>" + date + "<t>" + "\n")
  {
  }

  predicate AllHave(rs: seq<Record>, count: nat) {
    forall i :: 0 <= i < |rs| ==> |rs[i].fields| == count
  }

  function PrintAll(rs: seq<Record>, count: nat): string
    requires count <= 9 && AllHave(rs, count)
  {
    if rs == [] then "" else PrintRecord(rs[0]) + PrintAll(rs[1..], count)
  }

  lemma Regrouped(a: string, b: string, tag: string, f: string)
    ensures a + (b + tag + f + tag) == a + b + tag + f + tag
  {
  }

  lemma {:induction false} PrintFieldsSnoc(fields: seq<string>, f: string, i: nat)
    requires 1 <= i && i + |fields| < 10
    ensures PrintFields(fields + [f], i) == PrintFields(fields, i) + Tag(i + |fields|) + f + Tag(i + |fields|)
  {
    hide Tag;
    if fields == [] {
      assert fields + [f] == [f];
      assert PrintFields([f][1..], i + 1) == "";
    } else {
      PrintFieldsSnoc(fields[1..], f, i + 1);
      assert (fields + [f])[1..] == fields[1..] + [f];
      Regrouped(Tag(i) + fields[0] + Tag(i), PrintFields(fields[1..], i + 1), Tag(i + |fields|), f);
    }
  }

  lemma {:induction false} PrintAllSnoc(rs: seq<Record>, r: Record, count: nat)
    requires count <= 9 && AllHave(rs, count) && |r.fields| == count
    ensures AllHave(rs + [r], count)
    ensures PrintAll(rs + [r], count) == PrintAll(rs, count) + PrintRecord(r)
  {
    hide PrintRecord;
    if rs == [] {
      assert rs + [r] == [r];
      assert PrintAll([r][1..], count) == "";
      assert PrintRecord(r) + "" == PrintRecord(r) == "" + PrintRecord(r);
    } else {
      PrintAllSnoc(rs[1..], r, count);
      assert (rs + [r])[1..] == rs[1..] + [r];
      assert PrintRecord(rs[0]) + (PrintAll(rs[1..], count) + PrintRecord(r))
          == PrintRecord(rs[0]) + PrintAll(rs[1..], count) + PrintRecord(r);
    }
  }

  // ---- Reading

  /** What one record contributes to the table. */
  datatype Row = Row(url: string, szFilePath: string, time: int)

  /** The fields with tags `i` to `last`, and how many bytes they take. */
  function ParseFields(s: string, i: nat, last: nat): (r: Option<(seq<string>, nat)>)
    requires 1 <= i <= last + 1 <= 10
    ensures r.Some? ==> |r.value.0| == last + 1 - i && r.value.1 <= |s|
    decreases last + 1 - i
  {
    if i > last then Some(([], 0))
    else
      match Split(s, Tag(i))
      case None => None
      case Some((f, n)) =>
        match ParseFields(s[n..], i + 1, last)
        case None => None
        case Some((fs, m)) => Some(([f] + fs, n + m))
  }

  /** One record of kind `num`: kind 1 has two fields, kind 2 three; the first is the URL, the last the name. */
  function ParseRecord(s: string, num: nat): (r: Option<(Row, nat)>)
    requires 1 <= num <= 2
    ensures r.Some? ==> 0 < r.value.1 <= |s|
  {
    match ParseFields(s, 1, num + 1)
    case None => None
    case Some((fs, n)) =>
      match Split(s[n..], DATE_TAG)
      case None => None
      case Some((date, m)) => Some((Row(fs[0], fs[num], Strtol(date)), n + m))
  }

  /** All records, until at most one byte is left. */
  function ParseAll(s: string, num: nat): Option<seq<Row>>
    requires 1 <= num <= 2
    decreases |s|
  {
    if |s| <= 1 then Some([])
    else
      match ParseRecord(s, num)
      case None => None
      case Some((row, n)) =>
        match ParseAll(s[n..], num)
        case None => None
        case Some(rows) => Some([row] + rows)
  }

  /** How many bytes the reading loop has passed when it stops. */
  function ParsedLength(s: string, num: nat): (n: nat)
    requires 1 <= num <= 2
    ensures n <= |s|
    decreases |s|
  {
    if |s| <= 1 then 0
    else
      match ParseRecord(s, num)
      case None => 0
      case Some((_, n)) => n + ParsedLength(s[n..], num)
  }

  // ---- Round trip

  /** No field of the record contains its own tag. */
  predicate Readable(r: Record)
    requires |r.fields| <= 9
  {
    && (forall k :: 0 <= k < |r.fields| ==> TagFree(r.fields[k], Tag(k + 1)))
    && TagFree(r.date, DATE_TAG)
  }

  /** Fields without '<' are always readable. */
  lemma PlainIsReadable(r: Record)
    requires |r.fields| <= 9 && '<' !in r.date && forall k :: 0 <= k < |r.fields| ==> '<' !in r.fields[k]
    ensures Readable(r)
  {
    forall k | 0 <= k < |r.fields| ensures TagFree(r.fields[k], Tag(k + 1)) {
      PlainIsTagFree(r.fields[k], Tag(k + 1));
    }
    PlainIsTagFree(r.date, DATE_TAG);
  }

  lemma PlainIsTagFree(f: string, tag: string)
    requires '<' !in f && IsTag(tag)
    ensures TagFree(f, tag)
  {
    forall j | 0 <= j < |f| ensures !At(f, tag, j) {
      NotAt(f, tag, j, 0);
    }
  }

  lemma {:induction false} ReadFields(s: string, lead: string, fields: seq<string>, i: nat, rest: string)
    requires IsLead(lead) && 1 <= i && i + |fields| <= 10
    requires s == lead + PrintFields(fields, i) + rest
    requires forall k :: 0 <= k < |fields| ==> TagFree(fields[k], Tag(k + i))
    requires fields == [] ==> lead == ""
    ensures ParseFields(s, i, i + |fields| - 1) == Some((fields, |lead| + |PrintFields(fields, i)|))
    decreases |fields|
  {
    hide Split, TagFree, IsTag, Tag, PrintFields, ParseFields;
    if fields == [] {
      NothingPrinted(s, fields, i);
    } else {
      var f, more := fields[0], PrintFields(fields[1..], i + 1);
      assert TagFree(f, Tag(0 + i));
      FirstPrinted(lead, fields, i, rest);
      SplitReadsField(s, lead, Tag(i), f, more + rest);
      TailTagFree(fields, i);
      assert "" + more == more;
      ReadFields(more + rest, "", fields[1..], i + 1, rest);
      ParseFirst(s, i, i + |fields| - 1);
      assert [f] + fields[1..] == fields;
    }
  }

  lemma TailTagFree(fields: seq<string>, i: nat)
    requires fields != [] && 1 <= i && i + |fields| <= 10
    requires forall k :: 0 <= k < |fields| ==> TagFree(fields[k], Tag(k + i))
    ensures forall k :: 0 <= k < |fields[1..]| ==> TagFree(fields[1..][k], Tag(k + (i + 1)))
  {
    hide TagFree, Tag;
    forall k | 0 <= k < |fields[1..]| ensures TagFree(fields[1..][k], Tag(k + (i + 1))) {
      assert TagFree(fields[k + 1], Tag(k + 1 + i));
    }
  }

  lemma NothingPrinted(s: string, fields: seq<string>, i: nat)
    requires fields == [] && 1 <= i <= 10
    ensures PrintFields(fields, i) == "" && ParseFields(s, i, i - 1) == Some(([], 0))
  {
  }

  lemma ParseFirst(s: string, i: nat, last: nat)
    requires 1 <= i <= last <= 9 && Split(s, Tag(i)).Some?
    requires ParseFields(s[Split(s, Tag(i)).value.1..], i + 1, last).Some?
    ensures var (f, n) := Split(s, Tag(i)).value;
            var (fs, m) := ParseFields(s[n..], i + 1, last).value;
            ParseFields(s, i, last) == Some(([f] + fs, n + m))
  {
    hide Split, Tag;
  }

  lemma FirstPrinted(lead: string, fields: seq<string>, i: nat, rest: string)
    requires fields != [] && 1 <= i && i + |fields| <= 10
    ensures var more := PrintFields(fields[1..], i + 1);
            && lead + PrintFields(fields, i) + rest == lead + Tag(i) + fields[0] + Tag(i) + (more + rest)
            && |PrintFields(fields, i)| == |fields[0]| + 6 + |more|
  {
  }

  lemma ReadRecord(s: string, lead: string, r: Record, num: nat, rest: string)
    requires IsLead(lead) && 1 <= num <= 2 && |r.fields| == num + 1 && Readable(r)
    requires s == lead + PrintRecord(r) + rest
    ensures ParseRecord(s, num) == Some((RowOf(r, num), |lead| + |PrintRecord(r)| - 1))
    ensures s[|lead| + |PrintRecord(r)| - 1..] == "\n" + rest
  {
    hide Split, TagFree, PrintFields, ParseFields;
    var fields := PrintFields(r.fields, 1);
    var end := "\n" + rest;
    var dated := DATE_TAG + r.date + DATE_TAG + end;
    assert s == lead + fields + dated;
    assert forall k :: 0 <= k < |r.fields| ==> TagFree(r.fields[k], Tag(k + 1));
    ReadFields(s, lead, r.fields, 1, dated);
    assert s[|lead + fields|..] == dated;
    assert dated == "" + DATE_TAG + r.date + DATE_TAG + end;
    SplitReadsField(dated, "", DATE_TAG, r.date, end);
    assert s[|lead + fields| + |r.date| + 6..] == dated[|r.date| + 6..];
  }

  function RowOf(r: Record, num: nat): Row
    requires num < |r.fields|
  {
    Row(r.fields[0], r.fields[num], Strtol(r.date))
  }

  function RowsOf(rs: seq<Record>, num: nat): (rows: seq<Row>)
    requires AllHave(rs, num + 1)
    ensures |rows| == |rs|
  {
    seq(|rs|, i requires 0 <= i < |rs| => RowOf(rs[i], num))
  }

  /** Reading any number of printed records gives back every one of them, in order, and stops with exactly
      one byte left unless there was nothing to read. */
  lemma {:induction false} RoundTrip(s: string, lead: string, rs: seq<Record>, num: nat)
    requires lead == "" || lead == "\n"
    requires 1 <= num <= 2 && AllHave(rs, num + 1) && forall i :: 0 <= i < |rs| ==> Readable(rs[i])
    requires s == lead + PrintAll(rs, num + 1)
    ensures ParseAll(s, num) == Some(RowsOf(rs, num))
    ensures ParsedLength(s, num) == if s == "" then 0 else |s| - 1
    decreases |rs|
  {
    hide ParseRecord, PrintRecord, Readable, RowOf;
    if rs != [] {
      var r := rs[0];
      var rest := PrintAll(rs[1..], num + 1);
      assert s == lead + PrintRecord(r) + rest;
      assert IsLead(lead);
      PrintedLength(r);
      ReadRecord(s, lead, r, num, rest);
      RoundTrip("\n" + rest, "\n", rs[1..], num);
      assert RowsOf(rs, num) == [RowOf(r, num)] + RowsOf(rs[1..], num);
    }
  }

  lemma PrintedLength(r: Record)
    requires |r.fields| <= 9
    ensures |PrintRecord(r)| >= 7
  {
  }
}
