/**
 Deriving a free username from an email address: numbered candidates, shortened so that the number fits, the first free
 one of which is taken.
 */
module Usernames {
  import opened Decimal
  import opened Lists
  import opened Options

  const LIMIT := 140

  predicate Allowed(c: char) {
    ('a' <= c <= 'z') || IsDigit(c) || c == '.' || c == '_' || c == '-'
  }

  predicate AllAllowed(s: string) {
    forall i :: 0 <= i < |s| ==> Allowed(s[i])
  }

  function Kept(s: string): (r: string)
    ensures AllAllowed(r)
  {
    if s == "" then "" else (if Allowed(s[0]) then [s[0]] else "") + Kept(s[1..])
  }

  /** `s[:n]`: a negative n counts from the end. */
  function Slice(s: string, n: int): string {
    if n < 0 then s[..(if |s| + n > 0 then |s| + n else 0)]
    else if n < |s| then s[..n] else s
  }

  /** `local` is the lower-cased part of the address before the first "@". */
  function Base(local: string): (base: string)
    ensures 0 < |base| <= LIMIT && AllAllowed(base)
  {
    var name := if Kept(local) == "" then "member" else Kept(local);
    Slice(name, LIMIT)
  }

  function Candidate(base: string, suffix: nat): string {
    if suffix < 2 then base else Slice(base, LIMIT - |Dec(suffix)|) + Dec(suffix)
  }

  // ----- how candidates differ ---------------------------------------------------------------------------------------

  /** Numbers with equally many digits give different candidates, however much is cut off to make room. */
  lemma SameLengthDiffer(base: string, j: nat, k: nat)
    requires j >= 2 && k >= 2 && |Dec(j)| == |Dec(k)| && Candidate(base, j) == Candidate(base, k)
    ensures j == k
  {
    var cut := |Slice(base, LIMIT - |Dec(j)|)|;
    assert Candidate(base, j)[cut..] == Dec(j) && Candidate(base, k)[cut..] == Dec(k);
    DecInjective(j, k);
  }

  /**
   Numbers of different length can collide: 2 and 12 do exactly when the base is full and its 139th character is a
   one.
   */
  lemma ShorteningCollides(base: string)
    requires |base| == LIMIT
    ensures Candidate(base, 2) == Candidate(base, 12) <==> base[LIMIT - 2] == '1'
  {
    assert Dec(2) == "2" && Dec(1) == "1" && Dec(12) == Dec(1) + "2";
    assert Candidate(base, 2) == base[..LIMIT - 1] + "2";
    assert Candidate(base, 12) == base[..LIMIT - 2] + "12";
    assert base[..LIMIT - 1] == base[..LIMIT - 2] + [base[LIMIT - 2]];
    assert Candidate(base, 2)[LIMIT - 2] == base[LIMIT - 2] && Candidate(base, 12)[LIMIT - 2] == '1';
  }

  lemma CandidateShape(base: string, suffix: nat)
    requires 0 < |base| <= LIMIT && AllAllowed(base)
    ensures Candidate(base, suffix) != "" && AllAllowed(Candidate(base, suffix))
    ensures |Candidate(base, suffix)| <= LIMIT <==> suffix < Pow10(LIMIT)
  {
    DecLength(suffix, LIMIT);
    if suffix < 2 { Pow10Grows(1, LIMIT); assert Pow10(1) == 10 * Pow10(0); }
  }

  // ----- pigeonhole --------------------------------------------------------------------------------------------------

  function Candidates(base: string, lo: nat, n: nat): set<string> {
    if n == 0 then {} else Candidates(base, lo, n - 1) + {Candidate(base, lo + n - 1)}
  }

  lemma {:induction false} CandidatesAre(base: string, lo: nat, n: nat)
    ensures forall s :: s in Candidates(base, lo, n) ==> exists k :: lo <= k < lo + n && s == Candidate(base, k)
  {
    if n == 0 {
    } else {
      CandidatesAre(base, lo, n - 1);
      assert lo <= lo + n - 1 < lo + n;
    }
  }

  /** All numbers with `digits` digits. */
  lemma DigitsBetween(digits: nat, k: nat)
    requires digits > 0
    ensures |Dec(k)| == digits <==> (if digits == 1 then k < 10 else Pow10(digits - 1) <= k < Pow10(digits))
  {
    DecLength(k, digits);
    if digits > 1 { DecLength(k, digits - 1); }
    assert Pow10(1) == 10 * Pow10(0);
  }

  lemma {:induction false} ManyCandidates(base: string, lo: nat, n: nat)
    requires lo >= 2 && forall j, k :: lo <= j < k < lo + n ==> Candidate(base, j) != Candidate(base, k)
    ensures |Candidates(base, lo, n)| == n
  {
    if n == 0 {
    } else {
      ManyCandidates(base, lo, n - 1);
      CandidatesAre(base, lo, n - 1);
    }
  }

  /** With more numbers of one length than names taken, one of them is free. */
  lemma SomeCandidateIsFree(base: string, taken: set<string>, digits: nat) returns (k: nat)
    requires digits > 1 && 9 * Pow10(digits - 1) > |taken|
    ensures 2 <= k < Pow10(digits) && Candidate(base, k) !in taken
  {
    var lo, n := Pow10(digits - 1), 9 * Pow10(digits - 1);
    Pow10Grows(1, digits - 1);
    assert Pow10(1) == 10 * Pow10(0) && Pow10(digits) == lo + n;
    forall i, j | lo <= i < j < lo + n ensures Candidate(base, i) != Candidate(base, j) {
      DigitsBetween(digits, i);
      DigitsBetween(digits, j);
      if Candidate(base, i) == Candidate(base, j) { SameLengthDiffer(base, i, j); }
    }
    ManyCandidates(base, lo, n);
    CandidatesAre(base, lo, n);
    if Candidates(base, lo, n) <= taken { SubsetSize(Candidates(base, lo, n), taken); }
    var s :| s in Candidates(base, lo, n) && s !in taken;
    k :| lo <= k < lo + n && s == Candidate(base, k);
  }

  lemma {:induction false} Pow10Exceeds(n: nat)
    ensures n < Pow10(n)
  {
    if n == 0 {
    } else {
      Pow10Exceeds(n - 1);
    }
  }

  /** Lower-case letters, digits, dots, underscores and dashes are kept. */
  function IfAllowed(): char -> Option<char> {
    (c: char) => if 'a' <= c <= 'z' || '0' <= c <= '9' || c == '.' || c == '_' || c == '-' then Some(c) else None
  }

  /** What is kept of the address, or "member"; of a long one the first 140 characters. */
  ghost predicate BaseOf(local: string, base: string) {
    exists kept :: Selected(local, kept, IfAllowed()) && var name := if kept == "" then "member" else kept;
      base == if |name| <= 140 then name else name[..140]
  }

  lemma {:induction false} KeptIsSelected(s: string)
    ensures Selected(s, Kept(s), IfAllowed())
  {
    if s == "" {
    } else {
      KeptIsSelected(s[1..]);
      SelectedCons(s[0], s[1..], Kept(s[1..]), IfAllowed());
      assert [s[0]] + s[1..] == s;
    }
  }

  /** The first candidate is the base itself; a numbered one ends with the number and fits if the number does. */
  ghost predicate CandidateOf(base: string, n: nat, name: string) {
    if n <= 1 then name == base
    else
      var room := 140 - |Dec(n)|;
      if 0 <= room < |base| then name == base[..room] + Dec(n)
      else if room >= |base| then name == base + Dec(n)
      else name == (if |base| + room > 0 then base[..|base| + room] else "") + Dec(n)
  }

  lemma CandidateMeans(local: string, n: nat)
    ensures BaseOf(local, Base(local)) && CandidateOf(Base(local), n, Candidate(Base(local), n))
  {
    KeptIsSelected(local);
  }

  /** A length with more numbers than names taken. */
  ghost predicate Roomy(taken: set<string>, digits: nat) {
    digits > 1 && 9 * Pow10(digits - 1) > |taken|
  }

  /**
   Tries the base and then numbered candidates until one is free. It ends for every set of taken names: the result is
   the first free candidate, with a number of at most as many digits as it takes for there to be more numbers than
   names.
   */
  method DeriveUsername(local: string, taken: set<string>) returns (name: string, suffix: nat)
    ensures name !in taken && name != "" && AllAllowed(name)
    ensures suffix >= 1 && name == Candidate(Base(local), suffix)
    ensures forall k :: 1 <= k < suffix ==> Candidate(Base(local), k) in taken
    ensures exists base :: BaseOf(local, base) && CandidateOf(base, suffix, name)
    ensures forall digits :: Roomy(taken, digits) ==> suffix < Pow10(digits)
    ensures |name| <= LIMIT <==> suffix < Pow10(LIMIT)
  {
    var base := Base(local);
    ghost var digits := |taken| + 2;
    Pow10Exceeds(|taken| + 1);
    ghost var free := SomeCandidateIsFree(base, taken, digits);
    name, suffix := base, 1;
    while name in taken
      invariant 1 <= suffix <= free
      invariant name == Candidate(base, suffix)
      invariant forall k :: 1 <= k < suffix ==> Candidate(base, k) in taken
      decreases free - suffix
    {
      suffix := suffix + 1;
      var tail := Dec(suffix);
      name := Slice(base, LIMIT - |tail|) + tail;
    }
    CandidateShape(base, suffix);
    CandidateMeans(local, suffix);
    forall d | Roomy(taken, d) ensures suffix < Pow10(d) {
      var k := SomeCandidateIsFree(base, taken, d);
    }
  }

  /** With fewer than 9 * 10^139 accounts the name always fits. */
  lemma NamesFit(base: string, taken: set<string>, suffix: nat)
    requires 0 < |base| <= LIMIT && AllAllowed(base) && |taken| < 9 * Pow10(LIMIT - 1)
    requires forall k :: 1 <= k < suffix ==> Candidate(base, k) in taken
    ensures |Candidate(base, suffix)| <= LIMIT
  {
    var k := SomeCandidateIsFree(base, taken, LIMIT);
    CandidateShape(base, suffix);
  }
}
