/**
 What is read from a row of the college catalogue: which text becomes which field, and how it is tidied. A text is
 taken apart into words and the gaps around them.
 */
module CollegeRows {
  import opened Colleges
  import opened Options
  import opened ReferenceText

  // ----- tidied text -----------------------------------------------------------------------------------------

  predicate AllSpaces(s: string) {
    forall i :: 0 <= i < |s| ==> IsSpace(s[i])
  }

  /** The words with these gaps before, between and after them. */
  function Spaced(words: seq<string>, gaps: seq<string>): string
    requires |gaps| == |words| + 1
  {
    if words == [] then gaps[0] else gaps[0] + words[0] + Spaced(words[1..], gaps[1..])
  }

  /** A text taken apart into words and gaps; there is something in every gap between two words. */
  ghost predicate Parts(words: seq<string>, gaps: seq<string>) {
    && |gaps| == |words| + 1
    && (forall i :: 0 <= i < |words| ==> Word(words[i]))
    && (forall i :: 0 <= i < |gaps| ==> AllSpaces(gaps[i]))
    && (forall i :: 0 < i < |gaps| - 1 ==> gaps[i] != "")
  }

  /** One plain space between two words, nothing at the ends. */
  function OneSpaceEach(n: nat): seq<string> {
    seq(n + 1, i requires 0 <= i < n + 1 => if 0 < i < n then " " else "")
  }

  /** `s` has the words of `raw`, one plain space between any two of them and no other space. */
  ghost predicate SameWords(raw: string, s: string) {
    exists words, gaps :: Parts(words, gaps) && raw == Spaced(words, gaps) && s == Spaced(words, OneSpaceEach(|words|))
  }

  lemma {:induction false} SpacesSkipped(gap: string, s: string)
    requires AllSpaces(gap)
    ensures Words(gap + s, "") == Words(s, "")
  {
    if gap == "" {
      assert gap + s == s;
    } else {
      assert (gap + s)[1..] == gap[1..] + s;
      SpacesSkipped(gap[1..], s);
    }
  }

  lemma {:induction false} WordRead(w: string, s: string, read: string)
    requires forall i :: 0 <= i < |w| ==> !IsSpace(w[i])
    ensures Words(w + s, read) == Words(s, read + w)
  {
    if w == "" {
      assert w + s == s && read + w == read;
    } else {
      assert (w + s)[1..] == w[1..] + s && read + [w[0]] + w[1..] == read + w;
      WordRead(w[1..], s, read + [w[0]]);
    }
  }

  /** Reading the text back gives its words. */
  lemma {:induction false} WordsOf(words: seq<string>, gaps: seq<string>)
    requires Parts(words, gaps)
    ensures Words(Spaced(words, gaps), "") == words
  {
    if words == [] {
      assert gaps[0] + "" == gaps[0];
      SpacesSkipped(gaps[0], "");
    } else {
      var (w, rest) := (words[0], Spaced(words[1..], gaps[1..]));
      assert Parts(words[1..], gaps[1..]);
      WordsOf(words[1..], gaps[1..]);
      assert Spaced(words, gaps) == gaps[0] + (w + rest);
      SpacesSkipped(gaps[0], w + rest);
      assert Word(w) && "" + w == w;
      WordRead(w, rest, "");
      AfterWord(w, words[1..], gaps[1..]);
    }
  }

  lemma AfterWord(w: string, words: seq<string>, gaps: seq<string>)
    requires Parts(words, gaps) && w != "" && (words != [] ==> gaps[0] != "")
    ensures Words(Spaced(words, gaps), w) == [w] + Words(Spaced(words, gaps), "")
  {
    var rest := Spaced(words, gaps);
    if rest != "" { assert rest[0] == gaps[0][0] && AllSpaces(gaps[0]); }
  }

  lemma FirstGap(words: seq<string>, gap: string, gaps: seq<string>)
    requires |gaps| == |words|
    ensures Spaced(words, [gap] + gaps) == gap + Spaced(words, [""] + gaps)
  {
    assert ([gap] + gaps)[1..] == gaps && ([""] + gaps)[1..] == gaps;
  }

  lemma {:induction false} JoinedByOne(words: seq<string>)
    ensures Join(words) == Spaced(words, OneSpaceEach(|words|))
  {
    if |words| <= 1 {
      if |words| == 1 { assert Spaced(words[1..], OneSpaceEach(1)[1..]) == ""; }
    } else {
      var (n, rest) := (|words|, words[1..]);
      JoinedByOne(rest);
      var inner := OneSpaceEach(n)[2..];
      assert OneSpaceEach(n)[1..] == [" "] + inner && OneSpaceEach(n - 1) == [""] + inner;
      FirstGap(rest, " ", inner);
      assert Spaced(words, OneSpaceEach(n)) == words[0] + " " + Spaced(rest, OneSpaceEach(n - 1));
    }
  }

  lemma SpaceInFront(words: seq<string>, gaps: seq<string>, c: char)
    requires Parts(words, gaps) && IsSpace(c)
    ensures var wider := [[c] + gaps[0]] + gaps[1..];
      Parts(words, wider) && Spaced(words, wider) == [c] + Spaced(words, gaps)
  {
    FirstGap(words, gaps[0], gaps[1..]);
    FirstGap(words, [c] + gaps[0], gaps[1..]);
    assert gaps == [gaps[0]] + gaps[1..];
  }

  lemma LetterText(words: seq<string>, gaps: seq<string>, c: char)
    requires |gaps| == |words| + 1 && words != [] && gaps[0] == ""
    ensures Spaced([[c] + words[0]] + words[1..], gaps) == [c] + Spaced(words, gaps)
  {
    var (longer, rest) := ([[c] + words[0]] + words[1..], Spaced(words[1..], gaps[1..]));
    assert longer[1..] == words[1..] && longer[0] == [c] + words[0];
    assert gaps[0] + words[0] == words[0] && gaps[0] + longer[0] == longer[0];
    assert [c] + words[0] + rest == [c] + (words[0] + rest);
  }

  lemma LetterInFront(words: seq<string>, gaps: seq<string>, c: char)
    requires Parts(words, gaps) && !IsSpace(c) && words != []
    ensures Parts([[c] + words[0]] + words[1..], gaps)
  {
    assert Word(words[0]);
  }

  lemma WordInFront(words: seq<string>, gaps: seq<string>, c: char)
    requires Parts(words, gaps) && !IsSpace(c) && (words == [] || gaps[0] != "")
    ensures Parts([[c]] + words, [""] + gaps) && Spaced([[c]] + words, [""] + gaps) == [c] + Spaced(words, gaps)
  {
    assert ([[c]] + words)[1..] == words && ([""] + gaps)[1..] == gaps;
  }

  /** Every text has such parts. */
  lemma {:induction false} TakenApart(raw: string) returns (words: seq<string>, gaps: seq<string>)
    ensures Parts(words, gaps) && Spaced(words, gaps) == raw
  {
    if raw == "" {
      words, gaps := [], [""];
    } else {
      words, gaps := TakenApart(raw[1..]);
      var c := raw[0];
      if IsSpace(c) {
        SpaceInFront(words, gaps, c);
        gaps := [[c] + gaps[0]] + gaps[1..];
      } else if words != [] && gaps[0] == "" {
        LetterInFront(words, gaps, c);
        LetterText(words, gaps, c);
        words := [[c] + words[0]] + words[1..];
      } else {
        WordInFront(words, gaps, c);
        words, gaps := [[c]] + words, [""] + gaps;
      }
    }
  }

  /** Squashing keeps the words and leaves one plain space between any two: that, and nothing else. */
  lemma SquashKeepsWords(raw: string, s: string)
    ensures SameWords(raw, s) <==> s == Squash(raw)
  {
    if words, gaps :| Parts(words, gaps) && raw == Spaced(words, gaps) && s == Spaced(words, OneSpaceEach(|words|)) {
      WordsOf(words, gaps);
      JoinedByOne(words);
    }
    var words, gaps := TakenApart(raw);
    WordsOf(words, gaps);
    JoinedByOne(words);
  }

  // ----- the id at the end of a name ---------------------------------------------------------------------------

  predicate AllDigits(s: string) {
    s != "" && forall i :: 0 <= i < |s| ==> DigitOf(s[i]).Some?
  }

  /** A capital letter, a dash and digits. */
  predicate Code(s: string) {
    |s| > 2 && 'A' <= s[0] <= 'Z' && s[1] == '-' && AllDigits(s[2..])
  }

  /** Spaces, "(Id:", spaces, the code, ")" and spaces: nothing more, nothing less. */
  ghost predicate EndsWithId(s: string, code: string) {
    Code(code) && exists a, b, c ::
      AllSpaces(a) && AllSpaces(b) && AllSpaces(c) && s == a + "(Id:" + b + code + ")" + c
  }

  lemma {:induction false} SpacesThen(a: string, s: string)
    requires AllSpaces(a) && (s != "" ==> !IsSpace(s[0]))
    ensures SkipSpaces(a + s) == s
  {
    if a == "" {
      assert a + s == s;
    } else {
      assert (a + s)[1..] == a[1..] + s;
      SpacesThen(a[1..], s);
    }
  }

  lemma {:induction false} SpacesBefore(s: string) returns (a: string)
    ensures AllSpaces(a) && s == a + SkipSpaces(s)
  {
    a := "";
    if s != "" && IsSpace(s[0]) {
      var rest := SpacesBefore(s[1..]);
      a := [s[0]] + rest;
    }
  }

  lemma {:induction false} ClosingReads(digits: string, c: string, read: string)
    requires AllSpaces(c) && read + digits != "" && forall i :: 0 <= i < |digits| ==> DigitOf(digits[i]).Some?
    ensures Closing(digits + ")" + c, read) == Some(read + digits)
  {
    var s := digits + ")" + c;
    if digits == "" {
      assert c + "" == c;
      SpacesThen(c, "");
      assert s[1..] == c && read + digits == read;
    } else {
      assert s[1..] == digits[1..] + ")" + c && read + [digits[0]] + digits[1..] == read + digits;
      ClosingReads(digits[1..], c, read + [digits[0]]);
    }
  }

  lemma {:induction false} ClosingFound(s: string, read: string) returns (digits: string, c: string)
    requires Closing(s, read).Some?
    ensures AllSpaces(c) && s == digits + ")" + c && Closing(s, read).value == read + digits
    ensures forall i :: 0 <= i < |digits| ==> DigitOf(digits[i]).Some?
  {
    if DigitOf(s[0]).Some? {
      var rest;
      rest, c := ClosingFound(s[1..], read + [s[0]]);
      digits := [s[0]] + rest;
    } else {
      digits := "";
      c := SpacesBefore(s[1..]);
      assert s == ")" + c;
    }
  }

  /** An id suffix is recognised exactly where one stands. */
  lemma SuffixFound(s: string, code: string)
    ensures EndsWithId(s, code) <==> IdSuffix(s) == Some(code)
  {
    if Code(code) {
      if a, b, c :| AllSpaces(a) && AllSpaces(b) && AllSpaces(c) && s == a + "(Id:" + b + code + ")" + c {
        SuffixReads(s, code, a, b, c);
      }
    }
    if IdSuffix(s) == Some(code) { SuffixTakenApart(s, code); }
  }

  lemma SuffixReads(s: string, code: string, a: string, b: string, c: string)
    requires Code(code) && AllSpaces(a) && AllSpaces(b) && AllSpaces(c) && s == a + "(Id:" + b + code + ")" + c
    ensures IdSuffix(s) == Some(code)
  {
    var (inner, digits) := (code + ")" + c, code[2..]);
    assert s == a + ("(Id:" + b + inner);
    SpacesThen(a, "(Id:" + b + inner);
    assert ("(Id:" + b + inner)[4..] == b + inner;
    SpacesThen(b, inner);
    assert inner[2..] == digits + ")" + c;
    ClosingReads(digits, c, "");
    assert "" + digits == digits && [code[0], '-'] + digits == code;
  }

  lemma SuffixTakenApart(s: string, code: string)
    requires IdSuffix(s) == Some(code)
    ensures EndsWithId(s, code)
  {
    var inside := After(SkipSpaces(s), "(Id:").value;
    var id := SkipSpaces(inside);
    var a := SpacesBefore(s);
    var b := SpacesBefore(inside);
    var digits, c := ClosingFound(id[2..], "");
    ClosingDigits(id[2..], "");
    assert "" + digits == digits && code == [id[0], '-'] + digits && code[2..] == digits;
    assert SkipSpaces(s) == "(Id:" + inside;
    CodeThen(id, digits, c);
    Regrouped(a, "(Id:", b, code, ")", c);
  }

  lemma CodeThen(id: string, digits: string, c: string)
    requires |id| >= 2 && id[1] == '-' && id[2..] == digits + ")" + c
    ensures id == [id[0], '-'] + digits + ")" + c
  {
    assert id == [id[0], '-'] + id[2..];
  }

  lemma Regrouped(a: string, open: string, b: string, code: string, close: string, c: string)
    ensures a + (open + (b + (code + close + c))) == a + open + b + code + close + c
  {
  }

  /** From position j to its end the text is an id suffix. */
  ghost predicate IdFrom(s: string, j: nat, code: string) {
    j <= |s| && EndsWithId(s[j..], code)
  }

  /** The text before the first place from which an id suffix reaches to the end, and the id; or all of it. */
  ghost predicate SplitInto(s: string, name: string, code: string) {
    if code == "" then name == s && forall j: nat, other :: !IdFrom(s, j, other)
    else
      && name <= s && IdFrom(s, |name|, code)
      && forall j: nat, other :: j < |name| ==> !IdFrom(s, j, other)
  }

  lemma {:induction false} NoSuffix(s: string, i: nat)
    requires i <= |s| && FindSuffix(s, i).None?
    ensures forall j :: i <= j <= |s| ==> IdSuffix(s[j..]).None?
    decreases |s| - i
  {
    if i < |s| { NoSuffix(s, i + 1); }
  }

  lemma IdFromFound(s: string, j: nat, code: string)
    ensures IdFrom(s, j, code) <==> j <= |s| && IdSuffix(s[j..]) == Some(code)
  {
    if j <= |s| { SuffixFound(s[j..], code); }
  }

  /** The split is such a one ... */
  lemma SplitIsSuch(value: string)
    ensures SplitInto(Squash(value), SplitId(value).name, SplitId(value).code)
  {
    var s := Squash(value);
    forall j: nat, other ensures IdFrom(s, j, other) <==> j <= |s| && IdSuffix(s[j..]) == Some(other) {
      IdFromFound(s, j, other);
    }
    var at := FindSuffix(s, 0);
    if at.None? {
      NoSuffix(s, 0);
    } else {
      assert IdFrom(s, at.value, SplitId(value).code) && Code(SplitId(value).code);
    }
  }

  /** ... and there is only one. */
  lemma OneSplit(s: string, m: string, x: string, n: string, y: string)
    requires SplitInto(s, m, x) && SplitInto(s, n, y)
    ensures m == n && x == y
  {
    if x != "" && y != "" {
      assert |m| == |n|;
      IdFromFound(s, |m|, x);
      IdFromFound(s, |m|, y);
    }
  }

  lemma SplitMeans(value: string, name: string, code: string)
    ensures SplitId(value) == Named(name, code) <==> SplitInto(Squash(value), name, code)
  {
    SplitIsSuch(value);
    if SplitInto(Squash(value), name, code) {
      OneSplit(Squash(value), name, code, SplitId(value).name, SplitId(value).code);
    }
  }

  // ----- rows ----------------------------------------------------------------------------------------------------

  /** What is left of a raw name without its id: tidied, split, and tidied again. */
  ghost predicate NameOnly(raw: string, tidied: string) {
    exists s, name, code :: SameWords(raw, s) && SplitInto(s, name, code) && SameWords(name, tidied)
  }

  /**
   The columns of a row in the college: a raw row's name and code come from its name column, the university from its
   own without an id, and every other field from its own column; a clean row's all from their own.
   */
  ghost predicate FieldsOf(row: Row, c: College) {
    match row
    case Raw(collegeName, universityName, collegeType, stateName, districtName) =>
      && (exists s :: SameWords(collegeName, s) && SplitInto(s, c.name, c.code))
      && NameOnly(universityName, c.university) && SameWords(collegeType, c.collegeType)
      && SameWords(stateName, c.state) && SameWords(districtName, c.district)
    case Clean(code, name, university, collegeType, state, district) =>
      && SameWords(code, c.code) && SameWords(name, c.name) && SameWords(university, c.university)
      && SameWords(collegeType, c.collegeType) && SameWords(state, c.state) && SameWords(district, c.district)
  }

  lemma NameOnlyMeans(raw: string, tidied: string)
    ensures NameOnly(raw, tidied) <==> tidied == Squash(SplitId(raw).name)
  {
    SquashKeepsWords(raw, Squash(raw));
    SplitIsSuch(raw);
    SquashKeepsWords(SplitId(raw).name, Squash(SplitId(raw).name));
    if s, name, code :| SameWords(raw, s) && SplitInto(s, name, code) && SameWords(name, tidied) {
      SquashKeepsWords(raw, s);
      OneSplit(s, name, code, SplitId(raw).name, SplitId(raw).code);
      SquashKeepsWords(name, tidied);
    }
  }

  lemma NamedMeans(raw: string, name: string, code: string)
    ensures (exists s :: SameWords(raw, s) && SplitInto(s, name, code)) <==> SplitId(raw) == Named(name, code)
  {
    SquashKeepsWords(raw, Squash(raw));
    SplitMeans(raw, name, code);
    if s :| SameWords(raw, s) && SplitInto(s, name, code) { SquashKeepsWords(raw, s); }
  }

  /** A row is read as a college exactly when these are its fields and it has a name and a code. */
  lemma RowReads(row: Row, c: College)
    ensures ParseRow(row) == Some(c) <==> c.code != "" && c.name != "" && FieldsOf(row, c)
  {
    match row {
      case Raw(collegeName, universityName, collegeType, stateName, districtName) =>
        NamedMeans(collegeName, c.name, c.code);
        NameOnlyMeans(universityName, c.university);
        SquashKeepsWords(collegeType, c.collegeType);
        SquashKeepsWords(stateName, c.state);
        SquashKeepsWords(districtName, c.district);
      case Clean(code, name, university, collegeType, state, district) =>
        SquashKeepsWords(code, c.code);
        SquashKeepsWords(name, c.name);
        SquashKeepsWords(university, c.university);
        SquashKeepsWords(collegeType, c.collegeType);
        SquashKeepsWords(state, c.state);
        SquashKeepsWords(district, c.district);
    }
  }
}
