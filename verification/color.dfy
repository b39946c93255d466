/** Terminal colouring (src/color.rs): a text value carrying an optional
    foreground colour, background colour and attribute, rendered with the
    Select Graphic Rendition controls of ECMA-48 (section 8.3.117):
    `ESC [ n m` per present field, in the order foreground, background,
    attribute, then the text, then the reset `ESC [ 0 m`. */
module Color {
  import opened Wrappers
  import opened Strings

  const Esc: char := '\U{1B}'

  /** Control Sequence Introducer `ESC [`. */
  const Prefix: string := [Esc, '[']
  const Suffix: string := "m"

  /** `ESC [ 0 m`: SGR "default rendition". */
  const Reset: string := Prefix + "0" + Suffix

  predicate IsDigit(c: char) {
    '0' <= c <= '9'
  }

  function Digit(d: nat): (c: char)
    requires d < 10
    ensures IsDigit(c) && c as int - '0' as int == d
  {
    "0123456789"[d]
  }

  /** Decimal rendering of an unsigned number, as Rust's `{}` writes a `u8`:
      digits only, most significant first, no leading zero. */
  function Decimal(n: nat): (r: string)
    ensures 0 < |r|
    ensures forall i :: 0 <= i < |r| ==> IsDigit(r[i])
    ensures r[0] == '0' ==> n == 0 && |r| == 1
  {
    if n < 10 then [Digit(n)] else Decimal(n / 10) + [Digit(n % 10)]
  }

  /** The number a string of decimal digits denotes. */
  function DecimalValue(s: string): nat
    requires forall i :: 0 <= i < |s| ==> IsDigit(s[i])
  {
    if |s| == 0 then 0
    else
      var last := s[|s| - 1];
      assert IsDigit(last);
      10 * DecimalValue(s[..|s| - 1]) + (last as int - '0' as int)
  }

  /** Reading back a rendered number gives the number. */
  lemma {:induction false} DecimalRoundTrip(n: nat)
    ensures DecimalValue(Decimal(n)) == n
  {
    var r := Decimal(n);
    if n >= 10 {
      DecimalRoundTrip(n / 10);
      assert r[..|r| - 1] == Decimal(n / 10);
    }
  }

  /** The decimal forms of the codes the shell uses. */
  lemma CodeDigits()
    ensures Decimal(1) == "1"
    ensures Decimal(31) == "31" && Decimal(32) == "32" && Decimal(34) == "34"
    ensures Decimal(41) == "41" && Decimal(42) == "42" && Decimal(44) == "44"
  {
    assert Decimal(3) == "3" && Decimal(4) == "4";
  }

  /** One SGR control `ESC [ code m`. */
  function Sgr(code: nat): string {
    Prefix + Decimal(code) + Suffix
  }

  /** A control is `ESC [`, then the code in decimal, which reads back as
      the code, then `m`. */
  lemma SgrParts(code: nat)
    ensures var r := Sgr(code);
      && 3 < |r| && r[..2] == Prefix && r[|r| - 1] == 'm'
      && (forall i :: 2 <= i < |r| - 1 ==> IsDigit(r[i]))
      && DecimalValue(r[2..|r| - 1]) == code
  {
    var r := Sgr(code);
    assert r[2..|r| - 1] == Decimal(code);
    DecimalRoundTrip(code);
  }

  datatype ForegroundColor = Red | Green | Blue
  datatype BackgroundColor = Red | Green | Blue
  datatype Attribute = Bold

  /** The `#[repr(u8)]` discriminants. */
  function ForegroundCode(c: ForegroundColor): nat {
    match c
    case Red => 31
    case Green => 32
    case Blue => 34
  }

  function BackgroundCode(c: BackgroundColor): nat {
    match c
    case Red => 41
    case Green => 42
    case Blue => 44
  }

  function AttributeCode(a: Attribute): nat {
    match a
    case Bold => 1
  }

  /** `Display` of a foreground colour. */
  function ForegroundDisplay(c: ForegroundColor): (r: string)
    ensures c == ForegroundColor.Red ==> r == "\U{1B}[31m"
    ensures c == ForegroundColor.Green ==> r == "\U{1B}[32m"
    ensures c == ForegroundColor.Blue ==> r == "\U{1B}[34m"
  {
    CodeDigits();
    Sgr(ForegroundCode(c))
  }

  /** `Display` of a background colour. */
  function BackgroundDisplay(c: BackgroundColor): (r: string)
    ensures c == BackgroundColor.Red ==> r == "\U{1B}[41m"
    ensures c == BackgroundColor.Green ==> r == "\U{1B}[42m"
    ensures c == BackgroundColor.Blue ==> r == "\U{1B}[44m"
  {
    CodeDigits();
    Sgr(BackgroundCode(c))
  }

  /** `Display` of an attribute. */
  function AttributeDisplay(a: Attribute): (r: string)
    ensures r == "\U{1B}[1m"
  {
    CodeDigits();
    Sgr(AttributeCode(a))
  }

  datatype ColoredString = ColoredString(
    fg: Option<ForegroundColor>,
    bg: Option<BackgroundColor>,
    text: string,
    attr: Option<Attribute>)

  predicate Decorated(s: ColoredString) {
    s.fg.Some? || s.bg.Some? || s.attr.Some?
  }

  /** `TerminalColor::color`: a value with no decoration whose text is the
      display string of the receiver (here given directly as `text`). */
  function Colored(text: string): (r: ColoredString)
    ensures !Decorated(r) && r.text == text
  {
    ColoredString(None, None, text, None)
  }

  // Builder methods: each replaces one field and keeps the rest.

  function SetFg(s: ColoredString, c: ForegroundColor): (r: ColoredString)
    ensures r.fg == Some(c)
    ensures r.bg == s.bg && r.text == s.text && r.attr == s.attr
  {
    s.(fg := Some(c))
  }

  function SetBg(s: ColoredString, c: BackgroundColor): (r: ColoredString)
    ensures r.bg == Some(c)
    ensures r.fg == s.fg && r.text == s.text && r.attr == s.attr
  {
    s.(bg := Some(c))
  }

  function SetAttr(s: ColoredString, a: Attribute): (r: ColoredString)
    ensures r.attr == Some(a)
    ensures r.fg == s.fg && r.bg == s.bg && r.text == s.text
  {
    s.(attr := Some(a))
  }

  function SetFgRed(s: ColoredString): (r: ColoredString)
    ensures r == SetFg(s, ForegroundColor.Red)
  {
    s.(fg := Some(ForegroundColor.Red))
  }

  function SetFgGreen(s: ColoredString): (r: ColoredString)
    ensures r == SetFg(s, ForegroundColor.Green)
  {
    s.(fg := Some(ForegroundColor.Green))
  }

  function SetFgBlue(s: ColoredString): (r: ColoredString)
    ensures r == SetFg(s, ForegroundColor.Blue)
  {
    s.(fg := Some(ForegroundColor.Blue))
  }

  function SetBold(s: ColoredString): (r: ColoredString)
    ensures r == SetAttr(s, Attribute.Bold)
  {
    s.(attr := Some(Attribute.Bold))
  }

  /** A setter applied twice equals it applied once; of two applications of
      the same setter the later one wins; setters of different fields commute. */
  lemma SettersIdempotentAndCommute(s: ColoredString, f1: ForegroundColor, f2: ForegroundColor,
                                    b1: BackgroundColor, b2: BackgroundColor, a: Attribute)
    ensures SetFg(SetFg(s, f1), f1) == SetFg(s, f1)
    ensures SetBg(SetBg(s, b1), b1) == SetBg(s, b1)
    ensures SetAttr(SetAttr(s, a), a) == SetAttr(s, a)
    ensures SetFg(SetFg(s, f1), f2) == SetFg(s, f2)
    ensures SetBg(SetBg(s, b1), b2) == SetBg(s, b2)
    ensures SetFg(SetBg(s, b1), f1) == SetBg(SetFg(s, f1), b1)
    ensures SetFg(SetAttr(s, a), f1) == SetAttr(SetFg(s, f1), a)
    ensures SetBg(SetAttr(s, a), b1) == SetAttr(SetBg(s, b1), a)
  {
  }

  function ForegroundPart(c: Option<ForegroundColor>): string {
    match c
    case None => ""
    case Some(f) => ForegroundDisplay(f)
  }

  function BackgroundPart(c: Option<BackgroundColor>): string {
    match c
    case None => ""
    case Some(b) => BackgroundDisplay(b)
  }

  function AttributePart(a: Option<Attribute>): string {
    match a
    case None => ""
    case Some(x) => AttributeDisplay(x)
  }

  /** `Display for ColoredString`: one arm per combination of present fields. */
  function Render(s: ColoredString): (r: string)
    ensures !Decorated(s) ==> r == s.text
    ensures Decorated(s) ==>
      r == ForegroundPart(s.fg) + BackgroundPart(s.bg) + AttributePart(s.attr) + s.text + Reset
  {
    match (s.fg, s.bg, s.attr)
    case (Some(f), Some(b), Some(a)) =>
      ForegroundDisplay(f) + BackgroundDisplay(b) + AttributeDisplay(a) + s.text + Reset
    case (Some(f), Some(b), None) => ForegroundDisplay(f) + BackgroundDisplay(b) + s.text + Reset
    case (Some(f), None, Some(a)) => ForegroundDisplay(f) + AttributeDisplay(a) + s.text + Reset
    case (Some(f), None, None) => ForegroundDisplay(f) + s.text + Reset
    case (None, Some(b), Some(a)) => BackgroundDisplay(b) + AttributeDisplay(a) + s.text + Reset
    case (None, Some(b), None) => BackgroundDisplay(b) + s.text + Reset
    case (None, None, Some(a)) => AttributeDisplay(a) + s.text + Reset
    case _ => s.text
  }

  /** A value turned into a coloured string with no decoration renders to
      its display text. */
  lemma ColoredRendersText(text: string)
    ensures Render(Colored(text)) == text
  {
  }

  /** The decoration `ls` puts on directory names. */
  lemma BlueBoldRendering(text: string)
    ensures Render(SetBold(SetFgBlue(Colored(text)))) == "\U{1B}[34m\U{1B}[1m" + text + "\U{1B}[0m"
  {
  }

  predicate NoEsc(t: string) {
    Esc !in t
  }

  /** Splits a leading foreground control off `s`, if there is one. */
  function PeelForeground(s: string): (Option<ForegroundColor>, string) {
    if StartsWith(s, ForegroundDisplay(ForegroundColor.Red)) then (Some(ForegroundColor.Red), s[5..])
    else if StartsWith(s, ForegroundDisplay(ForegroundColor.Green)) then (Some(ForegroundColor.Green), s[5..])
    else if StartsWith(s, ForegroundDisplay(ForegroundColor.Blue)) then (Some(ForegroundColor.Blue), s[5..])
    else (None, s)
  }

  function PeelBackground(s: string): (Option<BackgroundColor>, string) {
    if StartsWith(s, BackgroundDisplay(BackgroundColor.Red)) then (Some(BackgroundColor.Red), s[5..])
    else if StartsWith(s, BackgroundDisplay(BackgroundColor.Green)) then (Some(BackgroundColor.Green), s[5..])
    else if StartsWith(s, BackgroundDisplay(BackgroundColor.Blue)) then (Some(BackgroundColor.Blue), s[5..])
    else (None, s)
  }

  function PeelAttribute(s: string): (Option<Attribute>, string) {
    if StartsWith(s, AttributeDisplay(Attribute.Bold)) then (Some(Attribute.Bold), s[4..])
    else (None, s)
  }

  /** Peels the controls off the front of `body` in the order fg, bg,
      attr; what remains is the text. */
  function DecodeControls(body: string): ColoredString {
    var (fg, afterFg) := PeelForeground(body);
    var (bg, afterBg) := PeelBackground(afterFg);
    var (attr, text) := PeelAttribute(afterBg);
    ColoredString(fg, bg, text, attr)
  }

  /** Reads a rendering back: an escape-free string is undecorated text;
      otherwise the trailing reset is dropped and the controls are peeled. */
  function Decode(r: string): ColoredString {
    if NoEsc(r) then Colored(r)
    else DecodeControls(if EndsWith(r, Reset) then r[..|r| - |Reset|] else r)
  }

  lemma PrefixPeeled(p: string, rest: string)
    ensures StartsWith(p + rest, p) && (p + rest)[|p|..] == rest
  {
    assert (p + rest)[..|p|] == p;
  }

  /** `s` does not begin with `ESC [ d`. */
  predicate NotIntroducing(s: string, d: char) {
    !StartsWith(s, Prefix + [d])
  }

  lemma PeelForegroundOf(c: Option<ForegroundColor>, rest: string)
    requires NotIntroducing(rest, '3')
    ensures PeelForeground(ForegroundPart(c) + rest) == (c, rest)
  {
    match c
    case None =>
      assert ForegroundPart(c) + rest == rest;
      forall f: ForegroundColor ensures !StartsWith(rest, ForegroundDisplay(f)) {
        var p := ForegroundDisplay(f);
        assert p[..3] == Prefix + ['3'];
        if |p| <= |rest| {
          assert rest[..|p|][..3] == rest[..3] != p[..3];
        }
      }
    case Some(f) =>
      PrefixPeeled(ForegroundDisplay(f), rest);
  }

  lemma PeelBackgroundOf(c: Option<BackgroundColor>, rest: string)
    requires NotIntroducing(rest, '4')
    ensures PeelBackground(BackgroundPart(c) + rest) == (c, rest)
  {
    match c
    case None =>
      assert BackgroundPart(c) + rest == rest;
      forall b: BackgroundColor ensures !StartsWith(rest, BackgroundDisplay(b)) {
        var p := BackgroundDisplay(b);
        assert p[..3] == Prefix + ['4'];
        if |p| <= |rest| {
          assert rest[..|p|][..3] == rest[..3] != p[..3];
        }
      }
    case Some(b) =>
      PrefixPeeled(BackgroundDisplay(b), rest);
  }

  lemma PeelAttributeOf(a: Option<Attribute>, rest: string)
    requires NotIntroducing(rest, '1')
    ensures PeelAttribute(AttributePart(a) + rest) == (a, rest)
  {
    match a
    case None =>
      assert AttributePart(a) + rest == rest;
      var p := AttributeDisplay(Attribute.Bold);
      assert p[..3] == Prefix + ['1'];
      if |p| <= |rest| {
        assert rest[..|p|][..3] == rest[..3] != p[..3];
      }
    case Some(x) =>
      assert x == Attribute.Bold;
      PrefixPeeled(AttributeDisplay(x), rest);
  }

  /** An escape-free string introduces no control. */
  lemma NoEscNotIntroducing(t: string, d: char)
    requires NoEsc(t)
    ensures NotIntroducing(t, d)
  {
    if 3 <= |t| {
      assert t[..3][0] == t[0] != Esc;
    }
  }

  /** A control followed by anything does not introduce `ESC [ d` when its
      own third character differs from `d`. */
  lemma OtherControlNotIntroducing(control: string, rest: string, d: char)
    requires 3 <= |control| && control[2] != d
    ensures NotIntroducing(control + rest, d)
  {
    assert (control + rest)[..3][2] == control[2] != d;
  }

  lemma DecodeControlsOf(fg: Option<ForegroundColor>, bg: Option<BackgroundColor>, attr: Option<Attribute>, text: string)
    requires NoEsc(text)
    ensures DecodeControls(ForegroundPart(fg) + (BackgroundPart(bg) + (AttributePart(attr) + text)))
         == ColoredString(fg, bg, text, attr)
  {
    var b, a := BackgroundPart(bg), AttributePart(attr);
    NoEscNotIntroducing(text, '1');
    NoEscNotIntroducing(text, '3');
    NoEscNotIntroducing(text, '4');
    PeelAttributeOf(attr, text);
    if attr.Some? {
      OtherControlNotIntroducing(a, text, '4');
      OtherControlNotIntroducing(a, text, '3');
    } else {
      assert a + text == text;
    }
    PeelBackgroundOf(bg, a + text);
    if bg.Some? {
      OtherControlNotIntroducing(b, a + text, '3');
    } else {
      assert b + (a + text) == a + text;
    }
    PeelForegroundOf(fg, b + (a + text));
  }

  /** Decoding a decorated rendering assembled from its parts. */
  lemma DecodeParts(fg: Option<ForegroundColor>, bg: Option<BackgroundColor>, attr: Option<Attribute>, text: string)
    requires NoEsc(text)
    requires fg.Some? || bg.Some? || attr.Some?
    ensures Decode(ForegroundPart(fg) + BackgroundPart(bg) + AttributePart(attr) + text + Reset)
         == ColoredString(fg, bg, text, attr)
  {
    var f, b, a := ForegroundPart(fg), BackgroundPart(bg), AttributePart(attr);
    var body := f + (b + (a + text));
    var r := f + b + a + text + Reset;
    assert r == body + Reset;
    assert (f + b + a)[0] == Esc;
    assert r[0] == (f + b + a)[0];
    assert r[..|r| - |Reset|] == body;
    assert r[|r| - |Reset|..] == Reset;
    DecodeControlsOf(fg, bg, attr, text);
  }

  /** Rendering loses nothing when the text itself holds no escape
      character: the value can be read back from its rendering. */
  lemma DecodeRender(s: ColoredString)
    requires NoEsc(s.text)
    ensures Decode(Render(s)) == s
  {
    if Decorated(s) {
      DecodeParts(s.fg, s.bg, s.attr, s.text);
    }
  }

  /** Two values with escape-free texts render alike only when they are equal. */
  lemma RenderInjective(s1: ColoredString, s2: ColoredString)
    requires NoEsc(s1.text) && NoEsc(s2.text)
    requires Render(s1) == Render(s2)
    ensures s1 == s2
  {
    DecodeRender(s1);
    DecodeRender(s2);
  }
}
