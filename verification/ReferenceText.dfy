/** References to questions inside text: `{{12}}` in labels and messages, `{12}` in formulas. */
module ReferenceText {
  // Double braces allow spaces inside, and the digits may be of any script. Rewriting replaces each reference that a
  // left-to-right scan finds by one to another question and leaves everything else alone.

  import opened Options
  import opened Decimal

  datatype Style = Pipe | Formula

  /** A reference found at the start of a text: the number it holds and what follows it. */
  datatype Hit = Hit(id: nat, rest: string)

  datatype Phase = Lead | Digits | Trail | Close

  /** White space of any script. */
  predicate IsSpace(c: char) {
    var u := c as int;
    || 0x9 <= u <= 0xD || 0x1C <= u <= 0x20 || u == 0x85 || u == 0xA0 || u == 0x1680 || 0x2000 <= u <= 0x200A
    || u == 0x2028 || u == 0x2029 || u == 0x202F || u == 0x205F || u == 0x3000
  }

  /** Where the ten decimal digits of every other script start (Unicode 15). */
  const ZEROS: seq<int> := [
    0x660, 0x6F0, 0x7C0, 0x966, 0x9E6, 0xA66, 0xAE6, 0xB66, 0xBE6, 0xC66, 0xCE6, 0xD66, 0xDE6, 0xE50, 0xED0, 0xF20,
    0x1040, 0x1090, 0x17E0, 0x1810, 0x1946, 0x19D0, 0x1A80, 0x1A90, 0x1B50, 0x1BB0, 0x1C40, 0x1C50, 0xA620, 0xA8D0,
    0xA900, 0xA9D0, 0xA9F0, 0xAA50, 0xABF0, 0xFF10, 0x104A0, 0x10D30, 0x11066, 0x110F0, 0x11136, 0x111D0, 0x112F0,
    0x11450, 0x114D0, 0x11650, 0x116C0, 0x11730, 0x118E0, 0x11950, 0x11C50, 0x11D50, 0x11DA0, 0x11F50, 0x16A60,
    0x16AC0, 0x16B50, 0x1D7CE, 0x1D7D8, 0x1D7E2, 0x1D7EC, 0x1D7F6, 0x1E140, 0x1E2F0, 0x1E4F0, 0x1E950, 0x1FBF0
  ]

  /** The block of ten, among the first n, that a character is in. */
  function BlockOf(u: int, n: nat): (d: Option<nat>)
    requires n <= |ZEROS|
    ensures d.Some? ==> d.value < 10
  {
    if n == 0 then None else if ZEROS[n - 1] <= u < ZEROS[n - 1] + 10 then Some(u - ZEROS[n - 1]) else BlockOf(u, n - 1)
  }

  /** The digit a character stands for, in any script. No digit is a space or a plain punctuation mark. */
  function DigitOf(c: char): (d: Option<nat>)
    ensures d.Some? ==> d.value < 10 && !IsSpace(c) && c != '{' && c != '}' && c != ')'
    ensures IsDigit(c) ==> d == Some(DigitValue(c))
  {
    if IsDigit(c) then Some(DigitValue(c)) else if c as int < 0x660
        || IsSpace(c) then None else BlockOf(c as int, |ZEROS|)
  }

  /** What a character does to the match: end it, complete it, or go on with the number read so far. */
  datatype Move = Stop | Found | Go(phase: Phase, acc: nat)

  function Next(style: Style, phase: Phase, acc: nat, c: char): Move {
    var space := style.Pipe? && IsSpace(c);
    var digit := DigitOf(c);
    match phase
    case Lead => if digit.Some? then Go(Digits, digit.value) else if space then Go(Lead, acc) else Stop
    case Digits =>
      if digit.Some? then Go(Digits, acc * 10 + digit.value)
      else if space then Go(Trail, acc)
      else if c != '}' then Stop
      else if style.Formula? then Found else Go(Close, acc)
    case Trail => if space then Go(Trail, acc) else if c == '}' then Go(Close, acc) else Stop
    case Close => if c == '}' then Found else Stop
  }

  lemma BraceStops(style: Style, phase: Phase, acc: nat)
    ensures Next(style, phase, acc, '{') == Stop
  {
  }

  /** What remains to be matched after the opening braces. */
  function Body(style: Style, phase: Phase, acc: nat, s: string): (h: Option<Hit>)
    ensures h.Some? ==> |h.value.rest| < |s|
    decreases |s|
  {
    if s == "" then None
    else
      match Next(style, phase, acc, s[0])
      case Stop => None
      case Found => Some(Hit(acc, s[1..]))
      case Go(p, n) => Body(style, p, n, s[1..])
  }

  /** The reference that starts right here, if any. */
  function HitAt(style: Style, s: string): (h: Option<Hit>)
    ensures h.Some? ==> |h.value.rest| < |s|
  {
    match style
    case Pipe => if |s| >= 2 && s[0] == '{' && s[1] == '{' then Body(style, Lead, 0, s[2..]) else None
    case Formula => if |s| >= 1 && s[0] == '{' then Body(style, Lead, 0, s[1..]) else None
  }

  function Mark(style: Style, id: nat): string {
    match style
    case Pipe => "{{" + Dec(id) + "}}"
    case Formula => "{" + Dec(id) + "}"
  }

  function Rewrite(style: Style, s: string, f: nat -> nat): string
    decreases |s|
  {
    if s == "" then ""
    else
      var h := HitAt(style, s);
      if h.Some? then Mark(style, f(h.value.id)) + Rewrite(style, h.value.rest, f)
      else [s[0]] + Rewrite(style, s[1..], f)
  }

  /** What a scan of the text sees: references and ordinary characters, in order. */
  datatype Token = Lit(c: char) | Ref(id: nat)

  function Tokens(style: Style, s: string): seq<Token>
    decreases |s|
  {
    if s == "" then []
    else
      var h := HitAt(style, s);
      if h.Some? then [Ref(h.value.id)] + Tokens(style, h.value.rest)
      else [Lit(s[0])] + Tokens(style, s[1..])
  }

  function Renamed(ts: seq<Token>, f: nat -> nat): seq<Token> {
    if ts == [] then [] else [if ts[0].Ref? then Ref(f(ts[0].id)) else ts[0]] + Renamed(ts[1..], f)
  }

  // ----- rewriting touches nothing but the references ------------------------------------------------

  lemma RewriteStart(style: Style, s: string, f: nat -> nat)
    requires s != ""
    ensures var t := Rewrite(style, s, f);
      && t != "" && (s[0] == '{' ==> t[0] == '{')
      && (HitAt(style, s).None? ==> t[0] == s[0] && t[1..] == Rewrite(style, s[1..], f))
  {
  }

  /** No reference body contains an opening brace, so rewriting later references cannot complete or break one. */
  lemma {:induction false} BodyAfterRewrite(style: Style, phase: Phase, acc: nat, s: string, f: nat -> nat)
    ensures Body(style, phase, acc, Rewrite(style, s, f)).None? <==> Body(style, phase, acc, s).None?
    decreases |s|
  {
    if s == "" {
    } else {
      RewriteStart(style, s, f);
      BraceStops(style, phase, acc);
      var move := Next(style, phase, acc, s[0]);
      if s[0] != '{' && move.Go? { BodyAfterRewrite(style, move.phase, move.acc, s[1..], f); }
    }
  }

  /** Where the scan saw no reference before, it sees none after. */
  lemma NoNewHits(style: Style, s: string, f: nat -> nat)
    requires s != "" && HitAt(style, s).None?
    ensures HitAt(style, Rewrite(style, s, f)).None?
  {
    RewriteStart(style, s, f);
    match style {
      case Formula => BodyAfterRewrite(style, Lead, 0, s[1..], f);
      case Pipe => if |s| >= 2 { NoNewPipe(s, f); }
    }
  }

  lemma NoNewPipe(s: string, f: nat -> nat)
    requires |s| >= 2 && HitAt(Pipe, s).None?
    ensures HitAt(Pipe, Rewrite(Pipe, s, f)).None?
  {
    var t := Rewrite(Pipe, s, f);
    RewriteStart(Pipe, s, f);
    RewriteStart(Pipe, s[1..], f);
    BraceStops(Pipe, Lead, 0);
    if HitAt(Pipe, s[1..]).Some? {
      assert t[1..][1] == '{' && t[2..][0] == '{';
    } else {
      assert t[2..] == t[1..][1..] && s[2..] == s[1..][1..];
      BodyAfterRewrite(Pipe, Lead, 0, s[2..], f);
    }
  }

  lemma {:induction false} BodyReadsDigits(style: Style, acc: nat, ds: string, tail: string)
    requires forall i :: 0 <= i < |ds| ==> IsDigit(ds[i])
    ensures Body(style, Digits, acc, ds + tail) == Body(style, Digits, Parse(ds, acc), tail)
    decreases |ds|
  {
    if ds == "" {
      assert ds + tail == tail;
    } else {
      assert (ds + tail)[1..] == ds[1..] + tail;
      BodyReadsDigits(style, acc * 10 + DigitValue(ds[0]), ds[1..], tail);
    }
  }

  /** A number and the closing braces after it are read as that number. */
  lemma NumberIsRead(style: Style, id: nat, rest: string)
    ensures Body(style, Lead, 0, Dec(id) + rest) == Body(style, Digits, id, rest)
  {
    var ds := Dec(id);
    assert (ds + rest)[1..] == ds[1..] + rest;
    BodyReadsDigits(style, DigitValue(ds[0]), ds[1..], rest);
    ParseDec(id);
    assert Parse(ds, 0) == Parse(ds[1..], DigitValue(ds[0]));
  }

  lemma Around(open: string, middle: string, close: string, tail: string)
    ensures var text := open + middle + close + tail; open <= text && text[|open|..] == middle + (close + tail)
  {
  }

  /** A written reference is read back as the same number, ending where it was written. */
  lemma MarkIsHit(style: Style, id: nat, tail: string)
    ensures HitAt(style, Mark(style, id) + tail) == Some(Hit(id, tail))
  {
    CloseIsRead(style, id, tail);
    match style {
      case Pipe =>
        Around("{{", Dec(id), "}}", tail);
        NumberIsRead(style, id, "}}" + tail);
      case Formula =>
        Around("{", Dec(id), "}", tail);
        NumberIsRead(style, id, "}" + tail);
    }
  }

  lemma CloseIsRead(style: Style, id: nat, tail: string)
    ensures Body(style, Digits, id, (if style.Pipe? then "}}" else "}") + tail) == Some(Hit(id, tail))
  {
    assert ("}" + tail)[1..] == tail;
    assert ("}}" + tail)[1..] == "}" + tail;
  }

  /** The main result: a scan of the rewritten text sees exactly what it saw before, with the references renamed. */
  lemma {:induction false} RewriteRenames(style: Style, s: string, f: nat -> nat)
    ensures Tokens(style, Rewrite(style, s, f)) == Renamed(Tokens(style, s), f)
    decreases |s|
  {
    if s == "" {
    } else {
      var h := HitAt(style, s);
      if h.Some? {
        RewriteRenames(style, h.value.rest, f);
        MarkIsHit(style, f(h.value.id), Rewrite(style, h.value.rest, f));
      } else {
        NoNewHits(style, s, f);
        RewriteRenames(style, s[1..], f);
        var t := Rewrite(style, s, f);
        assert t[1..] == Rewrite(style, s[1..], f);
      }
    }
  }

  /** Rewriting twice is rewriting once with the composed renaming. */
  lemma {:induction false} RewriteComposes(style: Style, s: string, f: nat -> nat, g: nat -> nat)
    ensures Rewrite(style, Rewrite(style, s, f), g) == Rewrite(style, s, n => g(f(n)))
    decreases |s|
  {
    if s == "" {
    } else {
      var h := HitAt(style, s);
      if h.Some? {
        RewriteComposes(style, h.value.rest, f, g);
        MarkIsHit(style, f(h.value.id), Rewrite(style, h.value.rest, f));
      } else {
        NoNewHits(style, s, f);
        RewriteComposes(style, s[1..], f, g);
        assert Rewrite(style, s, f)[1..] == Rewrite(style, s[1..], f);
      }
    }
  }

  /** Only the references that occur in the text matter to its rewriting. */
  lemma {:induction false} RewriteDependsOnRefs(style: Style, s: string, f: nat -> nat, g: nat -> nat)
    requires forall n :: Ref(n) in Tokens(style, s) ==> f(n) == g(n)
    ensures Rewrite(style, s, f) == Rewrite(style, s, g)
    decreases |s|
  {
    if s == "" {
    } else {
      var h := HitAt(style, s);
      if h.Some? {
        assert Ref(h.value.id) in Tokens(style, s);
        RewriteDependsOnRefs(style, h.value.rest, f, g);
      } else {
        RewriteDependsOnRefs(style, s[1..], f, g);
      }
    }
  }
}
