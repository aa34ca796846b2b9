/**
 What a reference inside text looks like, and what rewriting leaves of a text around its references. Double braces
 allow blanks around the digits, single ones do not.
 */
module TextPatterns {
  import opened Decimal
  import opened Options
  import opened ReferenceText

  predicate Blanks(s: string) {
    forall i :: 0 <= i < |s| ==> IsSpace(s[i])
  }

  predicate Digital(s: string) {
    forall i :: 0 <= i < |s| ==> DigitOf(s[i]).Some?
  }

  /** The number that the digits spell, after `acc`. */
  function NumberOf(ds: string, acc: nat): nat
    requires Digital(ds)
  {
    if ds == "" then acc else NumberOf(ds[1..], acc * 10 + DigitOf(ds[0]).value)
  }

  /** Blanks are only allowed between double braces. */
  predicate Padding(style: Style, s: string) {
    Blanks(s) && (style.Formula? ==> s == "")
  }

  function Opening(style: Style): string {
    if style.Pipe? then "{{" else "{"
  }

  function Ending(style: Style): string {
    if style.Pipe? then "}}" else "}"
  }

  /** The text starts with a reference to `id`, and `rest` follows: braces, blanks, digits, blanks, braces. */
  ghost predicate StartsWithRef(style: Style, s: string, id: nat, rest: string) {
    exists a, ds, b ::
      && Padding(style, a) && ds != "" && Digital(ds) && Padding(style, b)
      && s == Opening(style) + a + ds + b + Ending(style) + rest && id == NumberOf(ds, 0)
  }

  // ----- reading the parts -------------------------------------------------------------------------------------

  lemma {:induction false} TrailReads(acc: nat, b: string, rest: string)
    requires Blanks(b)
    ensures Body(Pipe, Trail, acc, b + "}}" + rest) == Some(Hit(acc, rest))
  {
    var s := b + "}}" + rest;
    if b == "" {
      assert s[1..] == "}" + rest && ("}" + rest)[1..] == rest;
    } else {
      assert s[1..] == b[1..] + "}}" + rest;
      TrailReads(acc, b[1..], rest);
    }
  }

  lemma AfterDigits(style: Style, acc: nat, b: string, rest: string)
    requires Padding(style, b)
    ensures Body(style, Digits, acc, b + Ending(style) + rest) == Some(Hit(acc, rest))
  {
    var s := b + Ending(style) + rest;
    if b != "" {
      assert s[1..] == b[1..] + "}}" + rest && IsSpace(b[0]);
      TrailReads(acc, b[1..], rest);
    } else {
      assert s == Ending(style) + rest;
      assert ("}" + rest)[1..] == rest;
      if style.Pipe? { assert s[1..] == "}" + rest; }
    }
  }

  lemma {:induction false} DigitsRead(style: Style, acc: nat, ds: string, tail: string)
    requires Digital(ds)
    ensures Body(style, Digits, acc, ds + tail) == Body(style, Digits, NumberOf(ds, acc), tail)
    decreases |ds|
  {
    if ds == "" {
      assert ds + tail == tail;
    } else {
      assert (ds + tail)[1..] == ds[1..] + tail;
      DigitsRead(style, acc * 10 + DigitOf(ds[0]).value, ds[1..], tail);
    }
  }

  lemma {:induction false} LeadReads(style: Style, acc: nat, a: string, ds: string, b: string, rest: string)
    requires Padding(style, a) && ds != "" && Digital(ds) && Padding(style, b)
    ensures Body(style, Lead, acc, a + ds + b + Ending(style) + rest) == Some(Hit(NumberOf(ds, 0), rest))
  {
    var s := a + ds + b + Ending(style) + rest;
    if a == "" {
      assert s[0] == ds[0] && s[1..] == ds[1..] + (b + Ending(style) + rest);
      DigitsRead(style, DigitOf(ds[0]).value, ds[1..], b + Ending(style) + rest);
      AfterDigits(style, NumberOf(ds, 0), b, rest);
    } else {
      assert s[1..] == a[1..] + ds + b + Ending(style) + rest && IsSpace(a[0]);
      LeadReads(style, acc, a[1..], ds, b, rest);
    }
  }

  // ----- finding the parts -------------------------------------------------------------------------------------

  lemma CloseFound(acc: nat, s: string, h: Hit)
    requires Body(Pipe, Close, acc, s) == Some(h)
    ensures h.id == acc && s == "}" + h.rest
  {
  }

  lemma {:induction false} TrailFound(acc: nat, s: string, h: Hit) returns (b: string)
    requires Body(Pipe, Trail, acc, s) == Some(h)
    ensures Blanks(b) && h.id == acc && s == b + "}}" + h.rest
  {
    if IsSpace(s[0]) {
      b := TrailFound(acc, s[1..], h);
      b := [s[0]] + b;
      assert s == [s[0]] + s[1..];
    } else {
      b := "";
      CloseFound(acc, s[1..], h);
    }
  }

  lemma EndFound(style: Style, acc: nat, s: string, h: Hit) returns (b: string)
    requires Body(style, Digits, acc, s) == Some(h) && DigitOf(s[0]).None?
    ensures Padding(style, b) && h.id == acc && s == b + Ending(style) + h.rest
  {
    if style.Pipe? && IsSpace(s[0]) {
      b := TrailFound(acc, s[1..], h);
      b := [s[0]] + b;
      assert s == [s[0]] + s[1..];
    } else {
      b := "";
      if style.Pipe? { CloseFound(acc, s[1..], h); }
    }
  }

  lemma {:induction false} DigitsFound(style: Style, acc: nat, s: string, h: Hit) returns (ds: string, b: string)
    requires Body(style, Digits, acc, s) == Some(h)
    ensures Digital(ds) && Padding(style, b) && s == ds + (b + Ending(style) + h.rest) && h.id == NumberOf(ds, acc)
    decreases |s|
  {
    ds := "";
    if DigitOf(s[0]).Some? {
      var more;
      more, b := DigitsFound(style, acc * 10 + DigitOf(s[0]).value, s[1..], h);
      ds := [s[0]] + more;
      assert ds[1..] == more && s == [s[0]] + s[1..];
    } else {
      b := EndFound(style, acc, s, h);
    }
  }

  lemma FirstDigitFound(style: Style, acc: nat, s: string, h: Hit) returns (ds: string, b: string)
    requires Body(style, Lead, acc, s) == Some(h) && DigitOf(s[0]).Some?
    ensures ds != "" && Digital(ds) && Padding(style, b)
    ensures s == ds + (b + Ending(style) + h.rest) && h.id == NumberOf(ds, 0)
  {
    var more;
    more, b := DigitsFound(style, DigitOf(s[0]).value, s[1..], h);
    ds := [s[0]] + more;
    assert ds[1..] == more && s == [s[0]] + s[1..];
    Associated([s[0]], more, b + Ending(style) + h.rest);
  }

  lemma {:induction false} LeadFound(style: Style, acc: nat, s: string, h: Hit)
    returns (a: string, ds: string, b: string)
    requires Body(style, Lead, acc, s) == Some(h)
    ensures Padding(style, a) && ds != "" && Digital(ds) && Padding(style, b)
    ensures s == a + (ds + (b + Ending(style) + h.rest)) && h.id == NumberOf(ds, 0)
  {
    a := "";
    if DigitOf(s[0]).Some? {
      ds, b := FirstDigitFound(style, acc, s, h);
    } else {
      var more;
      more, ds, b := LeadFound(style, acc, s[1..], h);
      a := [s[0]] + more;
      Associated([s[0]], more, ds + (b + Ending(style) + h.rest));
      assert s == [s[0]] + s[1..];
    }
  }

  /** A scan finds a reference exactly where one stands. */
  lemma RefFound(style: Style, s: string, id: nat, rest: string)
    ensures StartsWithRef(style, s, id, rest) <==> HitAt(style, s) == Some(Hit(id, rest))
  {
    if StartsWithRef(style, s, id, rest) { RefReads(style, s, id, rest); }
    if HitAt(style, s) == Some(Hit(id, rest)) { RefShape(style, s, id, rest); }
  }

  lemma RefShape(style: Style, s: string, id: nat, rest: string)
    requires HitAt(style, s) == Some(Hit(id, rest))
    ensures StartsWithRef(style, s, id, rest)
  {
    var n := |Opening(style)|;
    var a, ds, b := LeadFound(style, 0, s[n..], Hit(id, rest));
    assert s == Opening(style) + s[n..];
    Glued(Opening(style), a, ds, b, Ending(style), rest);
  }

  lemma Glued(open: string, a: string, ds: string, b: string, close: string, rest: string)
    ensures open + (a + (ds + (b + close + rest))) == open + a + ds + b + close + rest
  {
    assert a + (ds + (b + close + rest)) == a + ds + b + close + rest;
  }

  lemma Regrouped(open: string, a: string, ds: string, b: string, close: string, rest: string)
    ensures open + (a + ds + b + close + rest) == open + a + ds + b + close + rest
  {
  }

  lemma RefReads(style: Style, s: string, id: nat, rest: string)
    requires StartsWithRef(style, s, id, rest)
    ensures HitAt(style, s) == Some(Hit(id, rest))
  {
    var a, ds, b :| Padding(style, a) && ds != "" && Digital(ds) && Padding(style, b)
                    && s == Opening(style) + a + ds + b + Ending(style) + rest && id == NumberOf(ds, 0);
    Regrouped(Opening(style), a, ds, b, Ending(style), rest);
    var inner := a + ds + b + Ending(style) + rest;
    LeadReads(style, 0, a, ds, b, rest);
    match style {
      case Pipe => assert ("{{" + inner)[2..] == inner;
      case Formula => assert ("{" + inner)[1..] == inner;
    }
  }

  // ----- the text around references ------------------------------------------------------------------------------

  /** No reference starts before position k. */
  ghost predicate PlainUntil(style: Style, s: string, k: nat) {
    forall j: nat, id, rest :: j < k && j <= |s| ==> !StartsWithRef(style, s[j..], id, rest)
  }

  lemma NoRefHere(style: Style, s: string, j: nat)
    requires j < |s| && forall id, rest :: !StartsWithRef(style, s[j..], id, rest)
    ensures HitAt(style, s[j..]).None?
  {
    var h := HitAt(style, s[j..]);
    if h.Some? { RefFound(style, s[j..], h.value.id, h.value.rest); }
  }

  lemma OneKept(style: Style, s: string, j: nat, f: nat -> nat)
    requires j < |s| && HitAt(style, s[j..]).None?
    ensures Rewrite(style, s[j..], f) == [s[j]] + Rewrite(style, s[j + 1..], f)
  {
    assert s[j..][1..] == s[j + 1..];
  }

  lemma Shifted(s: string, j: nat, rest: string)
    requires j < |s|
    ensures s[..j] + ([s[j]] + rest) == s[..j + 1] + rest
  {
  }

  lemma {:induction false} PlainStays(style: Style, s: string, k: nat, f: nat -> nat)
    requires k <= |s| && PlainUntil(style, s, k)
    ensures Rewrite(style, s, f) == s[..k] + Rewrite(style, s[k..], f)
  {
    if k == 0 {
      assert s[0..] == s;
    } else {
      PlainStays(style, s, k - 1, f);
      NoRefHere(style, s, k - 1);
      OneKept(style, s, k - 1, f);
      Shifted(s, k - 1, Rewrite(style, s[k..], f));
    }
  }

  /**
   Rewriting keeps the text up to the first reference, writes that one with its new number and without blanks, and
   goes on after it ...
   */
  lemma RewriteStep(style: Style, s: string, k: nat, id: nat, rest: string, f: nat -> nat)
    requires k <= |s| && PlainUntil(style, s, k) && StartsWithRef(style, s[k..], id, rest)
    ensures Rewrite(style, s, f)
        == s[..k] + (Opening(style) + Dec(f(id)) + Ending(style)) + Rewrite(style, rest, f)
  {
    PlainStays(style, s, k, f);
    RefRewritten(style, s[k..], id, rest, f);
    Associated(s[..k], Opening(style) + Dec(f(id)) + Ending(style), Rewrite(style, rest, f));
  }

  lemma Associated(a: string, b: string, c: string)
    ensures a + (b + c) == a + b + c
  {
  }

  lemma RefRewritten(style: Style, s: string, id: nat, rest: string, f: nat -> nat)
    requires StartsWithRef(style, s, id, rest)
    ensures Rewrite(style, s, f) == (Opening(style) + Dec(f(id)) + Ending(style)) + Rewrite(style, rest, f)
  {
    RefFound(style, s, id, rest);
    assert Mark(style, f(id)) == Opening(style) + Dec(f(id)) + Ending(style);
  }

  /** ... and a text without references stays as it is. */
  lemma RewritePlain(style: Style, s: string, f: nat -> nat)
    requires PlainUntil(style, s, |s|)
    ensures Rewrite(style, s, f) == s
  {
    PlainStays(style, s, |s|, f);
    assert s[..|s|] == s && s[|s|..] == "";
  }
}
