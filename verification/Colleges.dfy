/**
 Reading the college catalogue, raw or cleaned, and importing it in batches. The codes tell colleges apart: of several
 rows with one code the first usable one counts, and a batch of any size leaves the table as single writes would.
 */
module Colleges {
  import opened Lists
  import opened Options
  import opened ReferenceText

  const BATCH_SIZE := 2000

  // ----- cleaning text -----------------------------------------------------------------------------------------------

  /** The words of a text; `word` is the one being read. */
  function Words(s: string, word: string): seq<string> {
    var finished := if word == "" then [] else [word];
    if s == "" then finished
    else if IsSpace(s[0]) then finished + Words(s[1..], "")
    else Words(s[1..], word + [s[0]])
  }

  function Join(words: seq<string>): string {
    if words == [] then "" else if |words| == 1 then words[0] else words[0] + " " + Join(words[1..])
  }

  function Squash(s: string): string {
    Join(Words(s, ""))
  }

  function SkipSpaces(s: string): string {
    if s != "" && IsSpace(s[0]) then SkipSpaces(s[1..]) else s
  }

  predicate Capital(c: char) {
    'A' <= c <= 'Z'
  }

  /** The digits of the id up to the closing parenthesis that must end the text; `read` are those read so far. */
  function Closing(s: string, read: string): Option<string> {
    if s == "" then None
    else if DigitOf(s[0]).Some? then Closing(s[1..], read + [s[0]])
    else if s[0] == ')' && read != "" && SkipSpaces(s[1..]) == "" then Some(read)
    else None
  }

  /** What is left after the text's first n characters, if they are these. */
  function After(s: string, prefix: string): Option<string> {
    if prefix <= s then Some(s[|prefix|..]) else None
  }

  /** The text, from here to its end, is an id suffix: spaces, "(Id: X-123)" and spaces. */
  function IdSuffix(s: string): Option<string> {
    var opening := After(SkipSpaces(s), "(Id:");
    if opening.None? then None
    else
      var id := SkipSpaces(opening.value);
      if |id| < 2 || !Capital(id[0]) || id[1] != '-' then None
      else
        var digits := Closing(id[2..], "");
        if digits.Some? then Some([id[0], '-'] + digits.value) else None
  }

  /** The first position from i on where an id suffix starts. */
  function FindSuffix(s: string, i: nat): (at: Option<nat>)
    requires i <= |s|
    ensures at.Some? ==> i <= at.value <= |s| && IdSuffix(s[at.value..]).Some? && forall j :: i <= j < at.value ==>
        IdSuffix(s[j..]).None?
    decreases |s| - i
  {
    if IdSuffix(s[i..]).Some? then Some(i) else if i == |s| then None else FindSuffix(s, i + 1)
  }

  datatype Named = Named(name: string, code: string)

  function SplitId(value: string): Named {
    var squashed := Squash(value);
    var at := FindSuffix(squashed, 0);
    if at.None? then Named(squashed, "") else Named(squashed[..at.value], IdSuffix(squashed[at.value..]).value)
  }

  /** No space at either end, only plain ones between words, never two together. */
  predicate Tidy(s: string) {
    forall i :: 0 <= i < |s| && IsSpace(s[i]) ==> s[i] == ' ' && 0 < i < |s| - 1 && !IsSpace(s[i + 1])
  }

  predicate Word(w: string) {
    w != "" && forall i :: 0 <= i < |w| ==> !IsSpace(w[i])
  }

  lemma {:induction false} WordsAreWords(s: string, word: string)
    requires word == "" || Word(word)
    ensures forall i :: 0 <= i < |Words(s, word)| ==> Word(Words(s, word)[i])
  {
    if s == "" {
    } else {
      if IsSpace(s[0]) { WordsAreWords(s[1..], ""); } else { WordsAreWords(s[1..], word + [s[0]]); }
    }
  }

  lemma {:induction false} JoinIsTidy(words: seq<string>)
    requires forall i :: 0 <= i < |words| ==> Word(words[i])
    ensures Tidy(Join(words)) && (words != [] ==> Join(words) != "" && !IsSpace(Join(words)[0]))
  {
    if words == [] {
    } else if |words| == 1 {
      assert Word(words[0]);
    } else {
      JoinIsTidy(words[1..]);
      var (w, rest, s) := (words[0], Join(words[1..]), Join(words));
      assert s == w + " " + rest;
      forall i | 0 <= i < |s| && IsSpace(s[i]) ensures s[i] == ' ' && 0 < i < |s| - 1 && !IsSpace(s[i + 1]) {
        if i > |w| { assert s[i] == rest[i - |w| - 1]; }
      }
    }
  }

  /** After a word comes one plain space and then tidy text. */
  lemma TidyAfterWord(s: string, word: string)
    requires Tidy(word + s) && Word(word) && s != "" && IsSpace(s[0])
    ensures s[0] == ' ' && s[1..] != "" && Tidy(s[1..])
  {
    var whole := word + s;
    assert whole[|word|] == s[0] && whole[|word| + 1] == s[1];
    forall i | 0 <= i < |s[1..]| && IsSpace(s[1..][i])
        ensures s[1..][i] == ' ' && 0 < i < |s[1..]| - 1 && !IsSpace(s[1..][i + 1]) {
      assert whole[|word| + 1 + i] == s[1..][i];
      assert whole[|word| + 1 + i + 1] == s[1..][i + 1];
    }
  }

  lemma {:induction false} TidyStays(s: string, word: string)
    requires Tidy(word + s) && (word == "" || Word(word))
    ensures Join(Words(s, word)) == word + s
    decreases |s|
  {
    if s == "" {
      assert word + s == word;
    } else if IsSpace(s[0]) {
      assert (word + s)[|word|] == s[0];
      TidyAfterWord(s, word);
      assert "" + s[1..] == s[1..];
      TidyStays(s[1..], "");
      assert word + s == word + " " + s[1..];
    } else {
      assert word + [s[0]] + s[1..] == word + s;
      TidyStays(s[1..], word + [s[0]]);
    }
  }

  /** Squashing gives tidy text ... */
  lemma SquashIsTidy(s: string)
    ensures Tidy(Squash(s))
  {
    WordsAreWords(s, "");
    JoinIsTidy(Words(s, ""));
  }

  /** ... and changes nothing about text that is tidy already. */
  lemma SquashSettles(s: string)
    ensures Tidy(s) <==> Squash(s) == s
  {
    SquashIsTidy(s);
    if Tidy(s) {
      assert "" + s == s;
      TidyStays(s, "");
    }
  }

  lemma {:induction false} ClosingDigits(s: string, read: string)
    requires forall i :: 0 <= i < |read| ==> DigitOf(read[i]).Some?
    ensures var d := Closing(s, read); d.Some? ==> d.value != "" && forall i :: 0 <= i < |d.value| ==>
        DigitOf(d.value[i]).Some?
  {
    if s == "" || DigitOf(s[0]).None? {
    } else {
      ClosingDigits(s[1..], read + [s[0]]);
    }
  }

  lemma SpaceBelongsToSuffix(s: string, k: nat)
    requires 0 < k <= |s| && IdSuffix(s[k..]).Some?
    ensures IsSpace(s[k - 1]) ==> IdSuffix(s[k - 1..]).Some?
  {
    assert s[k - 1..][1..] == s[k..];
  }

  lemma PrefixIsTidy(s: string, k: nat)
    requires Tidy(s) && k <= |s| && (k > 0 ==> !IsSpace(s[k - 1]))
    ensures Tidy(s[..k])
  {
  }

  lemma IdIsTidy(s: string)
    requires IdSuffix(s).Some?
    ensures Tidy(IdSuffix(s).value)
  {
    var id := SkipSpaces(After(SkipSpaces(s), "(Id:").value);
    ClosingDigits(id[2..], "");
  }

  /** The name before the id and the id itself are already clean. */
  lemma SplitIsTidy(value: string)
    ensures Tidy(SplitId(value).name) && Tidy(SplitId(value).code)
  {
    var s := Squash(value);
    SquashIsTidy(value);
    var at := FindSuffix(s, 0);
    if at.Some? {
      if at.value > 0 { SpaceBelongsToSuffix(s, at.value); }
      PrefixIsTidy(s, at.value);
      IdIsTidy(s[at.value..]);
    }
  }

  // ----- rows --------------------------------------------------------------------------------------------------------

  datatype Row =
    | Raw(collegeName: string, universityName: string, collegeType: string, stateName: string, districtName: string)
    | Clean(code: string, name: string, university: string, collegeType: string, state: string, district: string)

  datatype College = College(code: string, name: string, university: string, collegeType: string, state: string,
      district: string)

  function ParseRow(row: Row): Option<College> {
    var named := if row.Raw? then SplitId(row.collegeName) else Named(Squash(row.name), Squash(row.code));
    if named.code == "" || named.name == "" then None
    else Some(
      if row.Raw? then
        College(named.code, named.name, Squash(SplitId(row.universityName).name), Squash(row.collegeType),
            Squash(row.stateName), Squash(row.districtName))
      else
        College(named.code, named.name, Squash(row.university), Squash(row.collegeType), Squash(row.state),
            Squash(row.district)))
  }

  function CleanRow(c: College): Row {
    Clean(c.code, c.name, c.university, c.collegeType, c.state, c.district)
  }

  /** A cleaned row is read as the college it was written from. */
  lemma CleanRowReadsBack(row: Row)
    requires ParseRow(row).Some?
    ensures ParseRow(CleanRow(ParseRow(row).value)) == ParseRow(row)
  {
    FieldsAreTidy(row);
    var c := ParseRow(row).value;
    SquashSettles(c.code);
    SquashSettles(c.name);
    SquashSettles(c.university);
    SquashSettles(c.collegeType);
    SquashSettles(c.state);
    SquashSettles(c.district);
  }

  /** Every field of a college that was read is tidy. */
  lemma FieldsAreTidy(row: Row)
    requires ParseRow(row).Some?
    ensures var c := ParseRow(row).value;
      Tidy(c.code) && Tidy(c.name) && Tidy(c.university) && Tidy(c.collegeType) && Tidy(c.state) && Tidy(c.district)
  {
    match row {
      case Raw(collegeName, universityName, collegeType, stateName, districtName) =>
        SplitIsTidy(collegeName);
        SquashIsTidy(SplitId(universityName).name);
        SquashIsTidy(collegeType);
        SquashIsTidy(stateName);
        SquashIsTidy(districtName);
      case Clean(code, name, university, collegeType, state, district) =>
        SquashIsTidy(code);
        SquashIsTidy(name);
        SquashIsTidy(university);
        SquashIsTidy(collegeType);
        SquashIsTidy(state);
        SquashIsTidy(district);
    }
  }

  // ----- files -------------------------------------------------------------------------------------------------------

  /** The codes of the first n colleges. */
  function Codes(colleges: seq<College>, n: nat): set<string>
    requires n <= |colleges|
  {
    if n == 0 then {} else Codes(colleges, n - 1) + {colleges[n - 1].code}
  }

  ghost predicate OncePerCode(colleges: seq<College>) {
    forall i, j :: 0 <= i < j < |colleges| ==> colleges[i].code != colleges[j].code
  }

  lemma {:induction false} CodesAre(colleges: seq<College>, n: nat, code: string)
    requires n <= |colleges|
    ensures code in Codes(colleges, n) <==> exists i :: 0 <= i < n && colleges[i].code == code
  {
    if n == 0 {
    } else {
      CodesAre(colleges, n - 1, code);
    }
  }

  /** The colleges with one more, unless the row was not usable or its code was seen before. */
  function With(colleges: seq<College>, parsed: Option<College>): seq<College> {
    if parsed.None? || parsed.value.code in Codes(colleges, |colleges|) then colleges else colleges + [parsed.value]
  }

  /** The first usable row of every code among the first n rows, in order. */
  function Read(rows: seq<Row>, n: nat): seq<College>
    requires n <= |rows|
  {
    if n == 0 then [] else With(Read(rows, n - 1), ParseRow(rows[n - 1]))
  }

  /** Codes depend on nothing but the colleges counted. */
  lemma {:induction false} SameCodes(a: seq<College>, b: seq<College>, n: nat)
    requires n <= |a| && n <= |b| && forall i :: 0 <= i < n ==> a[i] == b[i]
    ensures Codes(a, n) == Codes(b, n)
  {
    if n == 0 {
    } else {
      SameCodes(a, b, n - 1);
    }
  }

  lemma OneMoreCode(colleges: seq<College>, c: College)
    ensures Codes(colleges + [c], |colleges| + 1) == Codes(colleges, |colleges|) + {c.code}
  {
    SameCodes(colleges, colleges + [c], |colleges|);
  }

  lemma WithOnce(colleges: seq<College>, parsed: Option<College>)
    requires OncePerCode(colleges)
    ensures OncePerCode(With(colleges, parsed))
  {
    if parsed.Some? { CodesAre(colleges, |colleges|, parsed.value.code); }
  }

  /** No code is read twice. */
  lemma {:induction false} CodesReadOnce(rows: seq<Row>, n: nat)
    requires n <= |rows|
    ensures OncePerCode(Read(rows, n))
  {
    if n == 0 {
    } else {
      CodesReadOnce(rows, n - 1);
      WithOnce(Read(rows, n - 1), ParseRow(rows[n - 1]));
    }
  }

  /** Some row was read as this college. */
  ghost predicate ReadFrom(rows: seq<Row>, c: College) {
    exists j :: 0 <= j < |rows| && ParseRow(rows[j]) == Some(c)
  }

  ghost predicate AllReadFrom(rows: seq<Row>, colleges: seq<College>) {
    forall i :: 0 <= i < |colleges| ==> ReadFrom(rows, colleges[i])
  }

  lemma WithReadFrom(rows: seq<Row>, colleges: seq<College>, parsed: Option<College>)
    requires AllReadFrom(rows, colleges) && (parsed.Some? ==> ReadFrom(rows, parsed.value))
    ensures AllReadFrom(rows, With(colleges, parsed))
  {
  }

  /** Every college read comes from some row, and no code is read twice. */
  lemma {:induction false} ReadOnce(rows: seq<Row>, n: nat)
    requires n <= |rows|
    ensures OncePerCode(Read(rows, n)) && AllReadFrom(rows, Read(rows, n))
  {
    CodesReadOnce(rows, n);
    if n == 0 {
    } else {
      ReadOnce(rows, n - 1);
      WithReadFrom(rows, Read(rows, n - 1), ParseRow(rows[n - 1]));
    }
  }

  function Cleaned(colleges: seq<College>): seq<Row> {
    seq(|colleges|, i requires 0 <= i < |colleges| => CleanRow(colleges[i]))
  }

  lemma WithNext(colleges: seq<College>, n: nat)
    requires 0 < n <= |colleges| && OncePerCode(colleges)
    ensures With(colleges[..n - 1], Some(colleges[n - 1])) == colleges[..n]
  {
    CodesAre(colleges[..n - 1], n - 1, colleges[n - 1].code);
  }

  lemma {:induction false} ReadAllClean(colleges: seq<College>, n: nat)
    requires n <= |colleges| && OncePerCode(colleges)
    requires forall i :: 0 <= i < |colleges| ==> ParseRow(CleanRow(colleges[i])) == Some(colleges[i])
    ensures Read(Cleaned(colleges), n) == colleges[..n]
  {
    if n == 0 {
    } else {
      ReadAllClean(colleges, n - 1);
      WithNext(colleges, n);
      assert Cleaned(colleges)[n - 1] == CleanRow(colleges[n - 1]);
    }
  }

  /** Reading a cleaned file gives exactly the colleges of the file it was made from. */
  lemma CleaningKeepsColleges(rows: seq<Row>)
    ensures var colleges := Read(rows, |rows|); Read(Cleaned(colleges), |colleges|) == colleges
  {
    ReadOnce(rows, |rows|);
    var colleges := Read(rows, |rows|);
    forall i | 0 <= i < |colleges| ensures ParseRow(CleanRow(colleges[i])) == Some(colleges[i]) {
      assert ReadFrom(rows, colleges[i]);
      var j :| 0 <= j < |rows| && ParseRow(rows[j]) == Some(colleges[i]);
      CleanRowReadsBack(rows[j]);
    }
    ReadAllClean(colleges, |colleges|);
  }

  // ----- importing ---------------------------------------------------------------------------------------------------

  datatype Report = Report(parsed: nat, skipped: nat, created: nat, updated: nat)

  /** Creating or overwriting the first n colleges one at a time. */
  function Upserted(table: map<string, College>, colleges: seq<College>, n: nat): map<string, College>
    requires n <= |colleges|
  {
    if n == 0 then table else Upserted(table, colleges, n - 1)[colleges[n - 1].code := colleges[n - 1]]
  }

  /** Writing a stretch of the colleges after what precedes it. */
  lemma {:induction false} UpsertedOn(table: map<string, College>, colleges: seq<College>, from: nat,
          part: seq<College>, n: nat)
    requires n <= |part| && from + n <= |colleges| && forall i :: 0 <= i < n ==> part[i] == colleges[from + i]
    ensures Upserted(Upserted(table, colleges, from), part, n) == Upserted(table, colleges, from + n)
  {
    if n == 0 {
    } else {
      UpsertedOn(table, colleges, from, part, n - 1);
    }
  }

  /** Writing a batch at once is writing it one at a time. */
  lemma {:induction false} BatchIsOneByOne(table: map<string, College>, batch: seq<College>, n: nat)
    requires n <= |batch|
    ensures table + Upserted(map[], batch, n) == Upserted(table, batch, n)
  {
    if n == 0 {
    } else {
      BatchIsOneByOne(table, batch, n - 1);
    }
  }

  lemma {:induction false} KeysAfter(table: map<string, College>, batch: seq<College>, n: nat)
    requires n <= |batch|
    ensures Upserted(table, batch, n).Keys == table.Keys + Codes(batch, n)
  {
    if n == 0 {
    } else {
      KeysAfter(table, batch, n - 1);
    }
  }

  lemma {:induction false} CodeCount(batch: seq<College>, n: nat)
    requires n <= |batch| && OncePerCode(batch)
    ensures |Codes(batch, n)| == n
  {
    if n == 0 {
    } else {
      CodeCount(batch, n - 1);
      CodesAre(batch, n - 1, batch[n - 1].code);
    }
  }

  /** The table grows by the codes of the batch it did not have. */
  lemma Growth(table: map<string, College>, batch: seq<College>)
    requires OncePerCode(batch)
    ensures var known := table.Keys * Codes(batch, |batch|);
      |known| <= |batch| && |Upserted(table, batch, |batch|)| == |table| + |batch| - |known|
  {
    var codes := Codes(batch, |batch|);
    KeysAfter(table, batch, |batch|);
    CodeCount(batch, |batch|);
    SubsetSize(table.Keys * codes, codes);
    assert |table.Keys + codes| == |table.Keys| + |codes| - |table.Keys * codes|;
  }

  function Parsed(rows: seq<Row>): seq<Option<College>> {
    seq(|rows|, i requires 0 <= i < |rows| => ParseRow(rows[i]))
  }

  /** One of the first n rows is usable and has this code. */
  predicate CodeSeen(parsed: seq<Option<College>>, n: nat, code: string) {
    exists i :: 0 <= i < n && i < |parsed| && parsed[i].Some? && parsed[i].value.code == code
  }

  /** The j-th row is the first usable one with its code. */
  predicate First(parsed: seq<Option<College>>, j: nat) {
    j < |parsed| && parsed[j].Some? && !CodeSeen(parsed, j, parsed[j].value.code)
  }

  function Firsts(parsed: seq<Option<College>>): nat -> Option<College> {
    (j: nat) => if First(parsed, j) then parsed[j] else None
  }

  function Range(n: nat): seq<nat> {
    seq(n, i requires 0 <= i < n => i)
  }

  /** The colleges are those of the first n rows that come first for their code, in the order of the rows. */
  ghost predicate Leading(parsed: seq<Option<College>>, n: nat, colleges: seq<College>) {
    Selected(Range(n), colleges, Firsts(parsed))
  }

  ghost predicate CodesMatch(parsed: seq<Option<College>>, n: nat, colleges: seq<College>) {
    forall code :: code in Codes(colleges, |colleges|) <==> CodeSeen(parsed, n, code)
  }

  lemma CodesNext(parsed: seq<Option<College>>, n: nat, colleges: seq<College>)
    requires n < |parsed| && CodesMatch(parsed, n, colleges)
    ensures CodesMatch(parsed, n + 1, With(colleges, parsed[n]))
  {
    if parsed[n].Some? { OneMoreCode(colleges, parsed[n].value); }
    forall code ensures CodeSeen(parsed, n + 1, code)
        <==> CodeSeen(parsed, n, code) || (parsed[n].Some? && parsed[n].value.code == code) {
    }
  }

  lemma LeadingNext(parsed: seq<Option<College>>, n: nat, colleges: seq<College>)
    requires n < |parsed| && CodesMatch(parsed, n, colleges) && Leading(parsed, n, colleges)
    ensures Leading(parsed, n + 1, With(colleges, parsed[n]))
  {
    SelectedSnoc(Range(n), colleges, Firsts(parsed), n);
    assert Range(n + 1) == Range(n) + [n];
  }

  /** What is read are the first usable rows of their codes. */
  lemma {:induction false} ReadAreFirst(rows: seq<Row>, n: nat)
    requires n <= |rows|
    ensures Leading(Parsed(rows), n, Read(rows, n)) && CodesMatch(Parsed(rows), n, Read(rows, n))
  {
    if n == 0 {
    } else {
      ReadAreFirst(rows, n - 1);
      CodesNext(Parsed(rows), n - 1, Read(rows, n - 1));
      LeadingNext(Parsed(rows), n - 1, Read(rows, n - 1));
    }
  }

  lemma {:induction false} EarlierFirst(parsed: seq<Option<College>>, i: nat) returns (j: nat)
    requires i < |parsed| && parsed[i].Some?
    ensures j <= i && First(parsed, j) && parsed[j].value.code == parsed[i].value.code
  {
    j := i;
    if !First(parsed, i) {
      var k: nat :| k < i && parsed[k].Some? && parsed[k].value.code == parsed[i].value.code;
      j := EarlierFirst(parsed, k);
    }
  }

  lemma {:induction false} UpsertedAt(table: map<string, College>, colleges: seq<College>, n: nat, code: string)
    requires n <= |colleges| && OncePerCode(colleges)
    ensures forall i :: 0 <= i < n && colleges[i].code == code ==>
        Get(Upserted(table, colleges, n), code) == Some(colleges[i])
    ensures (forall i :: 0 <= i < n ==> colleges[i].code != code) ==>
        Get(Upserted(table, colleges, n), code) == Get(table, code)
  {
    if n == 0 {
    } else {
      UpsertedAt(table, colleges, n - 1, code);
    }
  }

  /** Every code of the file has the college of its first usable row, every other code what it had. */
  ghost predicate Imported(parsed: seq<Option<College>>, before: map<string, College>, after: map<string, College>) {
    && (forall j: nat :: First(parsed, j) ==> Get(after, parsed[j].value.code) == parsed[j])
    && forall code :: (forall j: nat :: First(parsed, j) ==> parsed[j].value.code != code) ==>
         Get(after, code) == Get(before, code)
  }

  lemma LeadingImported(parsed: seq<Option<College>>, colleges: seq<College>, table: map<string, College>)
    requires Leading(parsed, |parsed|, colleges) && CodesMatch(parsed, |parsed|, colleges) && OncePerCode(colleges)
    ensures Imported(parsed, table, Upserted(table, colleges, |colleges|))
  {
    forall j: nat | First(parsed, j)
      ensures Get(Upserted(table, colleges, |colleges|), parsed[j].value.code) == parsed[j] {
      assert Range(|parsed|)[j] == j && KeptAt(Range(|parsed|), colleges, Firsts(parsed), j);
      UpsertedAt(table, colleges, |colleges|, parsed[j].value.code);
    }
    forall code | forall j: nat :: First(parsed, j) ==> parsed[j].value.code != code
      ensures Get(Upserted(table, colleges, |colleges|), code) == Get(table, code) {
      UpsertedAt(table, colleges, |colleges|, code);
      CodesAre(colleges, |colleges|, code);
      if i: nat :| i < |parsed| && parsed[i].Some? && parsed[i].value.code == code {
        var j := EarlierFirst(parsed, i);
      }
    }
  }

  lemma ImportMeans(rows: seq<Row>, table: map<string, College>)
    ensures Imported(Parsed(rows), table, Upserted(table, Read(rows, |rows|), |Read(rows, |rows|)|))
    ensures Leading(Parsed(rows), |rows|, Read(rows, |rows|))
  {
    ReadAreFirst(rows, |rows|);
    CodesReadOnce(rows, |rows|);
    LeadingImported(Parsed(rows), Read(rows, |rows|), table);
  }

  class Catalogue {
    var table: map<string, College>

    /** Writes one batch and counts which of its codes were new. */
    method Flush(batch: seq<College>, report: Report) returns (after: Report)
      requires OncePerCode(batch)
      modifies this
      ensures table == Upserted(old(table), batch, |batch|)
      ensures after.parsed == report.parsed && after.skipped == report.skipped
      ensures after.created + after.updated == report.created + report.updated + |batch|
      ensures after.created == report.created + |table| - |old(table)|
    {
      Growth(table, batch);
      BatchIsOneByOne(table, batch, |batch|);
      var existing := |table.Keys * Codes(batch, |batch|)|;
      table := table + Upserted(map[], batch, |batch|);
      after := report.(updated := report.updated + existing, created := report.created + |batch| - existing);
    }

    /** Flushes the stretch of a file that follows what is already written. */
    method FlushPart(batch: seq<College>, report: Report, ghost colleges: seq<College>, ghost from: nat,
            ghost was: map<string, College>)
      returns (after: Report)
      requires OncePerCode(colleges) && from + |batch| <= |colleges| && table == Upserted(was, colleges, from)
      requires forall i :: 0 <= i < |batch| ==> batch[i] == colleges[from + i]
      modifies this
      ensures table == Upserted(was, colleges, from + |batch|)
      ensures after.parsed == report.parsed && after.skipped == report.skipped
      ensures after.created + after.updated == report.created + report.updated + |batch|
      ensures after.created == report.created + |table| - |old(table)|
    {
      assert OncePerCode(batch);
      UpsertedOn(was, colleges, from, batch, |batch|);
      after := Flush(batch, report);
    }

    /** Writes the colleges batch by batch, the last one possibly smaller. */
    method WriteBatches(colleges: seq<College>, start: Report, batchSize: nat) returns (report: Report)
      requires batchSize > 0 && OncePerCode(colleges) && start.created == start.updated == 0
      modifies this
      ensures table == Upserted(old(table), colleges, |colleges|)
      ensures report.parsed == start.parsed && report.skipped == start.skipped
      ensures report.created + report.updated == |colleges| && report.created == |table| - |old(table)|
    {
      report := start;
      var batch: seq<College> := [];
      ghost var done := 0;
      for n := 0 to |colleges|
        invariant done + |batch| == n && |batch| < batchSize
        invariant forall i :: 0 <= i < |batch| ==> batch[i] == colleges[done + i]
        invariant table == Upserted(old(table), colleges, done)
        invariant report.parsed == start.parsed && report.skipped == start.skipped
        invariant report.created + report.updated == done && report.created == |table| - |old(table)|
      {
        batch := batch + [colleges[n]];
        if |batch| >= batchSize {
          report := FlushPart(batch, report, colleges, done, old(table));
          batch, done := [], n + 1;
        }
      }
      if batch != [] {
        report := FlushPart(batch, report, colleges, done, old(table));
      }
    }

    /**
     Imports a file in batches of any size. Whatever the size, the table ends as if each code's first usable row had
     been written by itself, and the report adds up.
     */
    method ImportColleges(rows: seq<Row>, dryRun: bool, batchSize: nat := BATCH_SIZE) returns (report: Report)
      requires batchSize > 0
      modifies this
      ensures var colleges := Read(rows, |rows|);
        && table == (if dryRun then old(table) else Upserted(old(table), colleges, |colleges|))
        && report.parsed == |colleges| && report.parsed + report.skipped == |rows|
      ensures report.created + report.updated == if dryRun then 0 else report.parsed
      ensures report.created == |table| - |old(table)|
      ensures if dryRun then table == old(table) else Imported(Parsed(rows), old(table), table)
      ensures report.parsed == KeptBefore(Range(|rows|), Firsts(Parsed(rows)), |rows|)
    {
      ImportMeans(rows, table);
      var colleges;
      colleges, report := ReadColleges(rows);
      if !dryRun {
        report := WriteBatches(colleges, report, batchSize);
      }
    }
  }

  /** The usable rows, the first one of every code; everything else is skipped. */
  method ReadColleges(rows: seq<Row>) returns (colleges: seq<College>, report: Report)
    ensures colleges == Read(rows, |rows|) && OncePerCode(colleges) && Leading(Parsed(rows), |rows|, colleges)
    ensures report.parsed == |colleges| && report.parsed + report.skipped == |rows|
        && report.created == report.updated == 0
  {
    colleges, report := [], Report(0, 0, 0, 0);
    var seen: set<string> := {};
    for n := 0 to |rows|
      invariant colleges == Read(rows, n) && seen == Codes(colleges, |colleges|)
      invariant report.parsed == |colleges| && report.parsed + report.skipped == n
          && report.created == report.updated == 0
    {
      colleges, seen, report := Consider(ParseRow(rows[n]), colleges, seen, report);
    }
    CodesReadOnce(rows, |rows|);
    ReadAreFirst(rows, |rows|);
  }

  /** Takes one row in, or skips it. */
  method Consider(parsed: Option<College>, colleges: seq<College>, seen: set<string>, report: Report)
    returns (more: seq<College>, nowSeen: set<string>, after: Report)
    requires seen == Codes(colleges, |colleges|)
    ensures more == With(colleges, parsed) && nowSeen == Codes(more, |more|)
    ensures after.parsed == report.parsed + |more| - |colleges|
        && after.parsed + after.skipped == report.parsed + report.skipped + 1
    ensures after.created == report.created && after.updated == report.updated
  {
    if parsed.None? || parsed.value.code in seen {
      return colleges, seen, report.(skipped := report.skipped + 1);
    }
    OneMoreCode(colleges, parsed.value);
    return colleges + [parsed.value], seen + {parsed.value.code}, report.(parsed := report.parsed + 1);
  }
}
