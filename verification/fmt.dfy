/**
  Go's `fmt` formatting of a format string given no operands, as
  `fmt.Errorf(errStr)` does with a task's error text in
  `controlplane/websocket.go`. Text outside directives is copied; `%%` is a
  percent sign; every other verb has no operand and prints
  `%!<verb>(MISSING)`; a `*` width or precision has no operand either and
  prints `%!(BADWIDTH)` or `%!(BADPREC)`; a `%` with no verb after it prints
  `%!(NOVERB)`. Flags, widths and precisions are read and then ignored,
  since nothing is formatted with them.
 */
module Fmt {
  const NoVerb := "%!(NOVERB)"
  const BadWidth := "%!(BADWIDTH)"
  const BadPrec := "%!(BADPREC)"

  predicate IsFlag(c: char) {
    c == '#' || c == '0' || c == '+' || c == '-' || c == ' '
  }

  predicate IsDigit(c: char) {
    '0' <= c <= '9'
  }

  /** A character that can only be read as the verb: no flag, digit, `*` or `.`. */
  predicate IsVerbChar(c: char) {
    !IsFlag(c) && !IsDigit(c) && c != '*' && c != '.'
  }

  /** What a verb prints when it has no operand. */
  function VerbText(verb: char): (r: string)
    ensures verb == '%' ==> r == "%"
    ensures verb != '%' ==> r == "%!" + [verb] + "(MISSING)"
  {
    if verb == '%' then "%" else "%!" + [verb] + "(MISSING)"
  }

  /** The parts of a directive, in the order they are read. */
  datatype Stage = Flags | Width | WidthDigits | Precision | PrecisionDigits | Verb

  function Rank(stage: Stage): nat {
    match stage
    case Flags => 5
    case Width => 4
    case WidthDigits => 3
    case Precision => 2
    case PrecisionDigits => 1
    case Verb => 0
  }

  /**
    Reads a directive from position `i` of `t`, `t` being the text after its
    `%`, in `stage`: flags; then a width, a `*` or a run of digits; then a
    precision, a `.` followed by a `*` or digits, read only when the dot is
    not the last character; then the verb. Returns what it prints and where
    the directive ends.
   */
  function Scan(t: string, i: nat, stage: Stage): (r: (string, nat))
    requires i <= |t|
    ensures i <= r.1 <= |t|
    decreases |t| - i, Rank(stage)
  {
    match stage
    case Flags =>
      if i < |t| && IsFlag(t[i]) then Scan(t, i + 1, Flags) else Scan(t, i, Width)
    case Width =>
      if i < |t| && t[i] == '*' then
        var r := Scan(t, i + 1, Precision);
        (BadWidth + r.0, r.1)
      else Scan(t, i, WidthDigits)
    case WidthDigits =>
      if i < |t| && IsDigit(t[i]) then Scan(t, i + 1, WidthDigits) else Scan(t, i, Precision)
    case Precision =>
      if i + 1 < |t| && t[i] == '.' then
        if t[i + 1] == '*' then
          var r := Scan(t, i + 2, Verb);
          (BadPrec + r.0, r.1)
        else Scan(t, i + 1, PrecisionDigits)
      else Scan(t, i, Verb)
    case PrecisionDigits =>
      if i < |t| && IsDigit(t[i]) then Scan(t, i + 1, PrecisionDigits) else Scan(t, i, Verb)
    case Verb =>
      if i < |t| then (VerbText(t[i]), i + 1) else (NoVerb, |t|)
  }

  /** One directive, `t` being the text after its `%`: what it prints and how many characters of `t` it used. */
  function Directive(t: string): (r: (string, nat))
    ensures r.1 <= |t|
  {
    Scan(t, 0, Flags)
  }

  /** A verb character ends the directive wherever the reading has got to. */
  lemma {:induction false} ScanAtVerb(t: string, i: nat, stage: Stage)
    requires i < |t| && IsVerbChar(t[i])
    ensures Scan(t, i, stage) == (VerbText(t[i]), i + 1)
    decreases Rank(stage)
  {
    match stage
    case Flags => ScanAtVerb(t, i, Width);
    case Width => ScanAtVerb(t, i, WidthDigits);
    case WidthDigits => ScanAtVerb(t, i, Precision);
    case Precision => ScanAtVerb(t, i, Verb);
    case PrecisionDigits => ScanAtVerb(t, i, Verb);
    case Verb =>
  }

  /** At the end of the text there is no verb, wherever the reading has got to. */
  lemma {:induction false} ScanAtEnd(t: string, stage: Stage)
    ensures Scan(t, |t|, stage) == (NoVerb, |t|)
    decreases Rank(stage)
  {
    match stage
    case Flags => ScanAtEnd(t, Width);
    case Width => ScanAtEnd(t, WidthDigits);
    case WidthDigits => ScanAtEnd(t, Precision);
    case Precision => ScanAtEnd(t, Verb);
    case PrecisionDigits => ScanAtEnd(t, Verb);
    case Verb =>
  }

  /** Flags are skipped one by one. */
  lemma {:induction false} ScanFlags(t: string, i: nat, n: nat)
    requires i <= n <= |t| && forall k :: i <= k < n ==> IsFlag(t[k])
    ensures Scan(t, i, Flags) == Scan(t, n, Flags)
    decreases n - i
  {
    if i < n {
      ScanFlags(t, i + 1, n);
    }
  }

  /** `%%` is a percent sign. */
  lemma DirectiveOfPercent(t: string)
    requires |t| > 0 && t[0] == '%'
    ensures Directive(t) == ("%", 1)
  {
    ScanAtVerb(t, 0, Flags);
  }

  /** After a run of flags, a character that is no flag, digit, `*` or `.` is the verb. */
  lemma DirectiveOfFlagsAndVerb(t: string, n: nat)
    requires n < |t| && forall k :: 0 <= k < n ==> IsFlag(t[k])
    requires IsVerbChar(t[n])
    ensures Directive(t) == (VerbText(t[n]), n + 1)
  {
    ScanFlags(t, 0, n);
    ScanAtVerb(t, n, Flags);
  }

  predicate NoPercent(s: string) {
    forall k :: 0 <= k < |s| ==> s[k] != '%'
  }

  /** `fmt.Sprintf(s)`: the format `s` printed with no operands. */
  function FormatNoArgs(s: string): string
    decreases |s|, 1
  {
    if |s| == 0 then ""
    else if s[0] != '%' then FormatPlain(s)
    else FormatDirective(s)
  }

  /** `s` starting with plain text: its first character, then the rest formatted. */
  function FormatPlain(s: string): string
    requires |s| > 0
    decreases |s|, 0
  {
    [s[0]] + FormatNoArgs(s[1..])
  }

  /** `s` starting with a directive: its text, then the rest of `s` formatted. */
  function FormatDirective(s: string): string
    requires |s| > 0 && s[0] == '%'
    decreases |s|, 0
  {
    var d := Directive(s[1..]);
    d.0 + FormatNoArgs(s[1 + d.1..])
  }

  /** Text before a directive is copied as it is. */
  lemma {:induction false} FormatOfLiteralPrefix(pre: string, s: string)
    requires NoPercent(pre)
    ensures FormatNoArgs(pre + s) == pre + FormatNoArgs(s)
    decreases |pre|
  {
    if |pre| > 0 {
      var c, tail := pre[0], pre[1..];
      assert pre == [c] + tail;
      assert NoPercent(tail);
      FormatOfLiteralPrefix(tail, s);
      ConsAppend(c, tail, s);
      FormatOfPlainHead(c, tail + s);
      ConsAppend(c, tail, FormatNoArgs(s));
    } else {
      assert pre + s == s;
    }
  }

  lemma ConsAppend(c: char, a: string, b: string)
    ensures [c] + (a + b) == [c] + a + b
  {
  }

  /** Text without a percent sign is printed as it is. */
  lemma FormatOfPlainText(s: string)
    requires NoPercent(s)
    ensures FormatNoArgs(s) == s
  {
    FormatOfLiteralPrefix(s, "");
    assert s + "" == s;
  }

  /** `s` with every percent sign doubled, the way to put literal text into a format. */
  function EscapePercent(s: string): (r: string)
    ensures |r| >= |s|
    ensures NoPercent(s) ==> r == s
  {
    if |s| == 0 then ""
    else if s[0] == '%' then "%%" + EscapePercent(s[1..])
    else
      assert NoPercent(s) ==> NoPercent(s[1..]);
      [s[0]] + EscapePercent(s[1..])
  }

  /** Formatting undoes escaping: any text survives `fmt` once its percent signs are doubled. */
  lemma {:induction false} FormatOfEscaped(s: string)
    ensures FormatNoArgs(EscapePercent(s)) == s
    decreases |s|
  {
    if |s| > 0 {
      FormatOfEscaped(s[1..]);
      var rest := EscapePercent(s[1..]);
      if s[0] == '%' {
        assert EscapePercent(s) == "%%" + rest;
        FormatOfDoubledPercent(rest);
      } else {
        assert EscapePercent(s) == [s[0]] + rest;
        FormatOfPlainHead(s[0], rest);
      }
      assert s == [s[0]] + s[1..];
    }
  }

  /** `%%` prints one percent sign and formatting resumes after it. */
  lemma FormatOfDoubledPercent(rest: string)
    ensures FormatNoArgs("%%" + rest) == "%" + FormatNoArgs(rest)
  {
    var e := "%%" + rest;
    assert e[1..] == "%" + rest;
    DirectiveOfPercent(e[1..]);
    assert e[2..] == rest;
    FormatOfDirective(e, "%", 1, rest);
  }

  /** A character other than `%` is copied. */
  lemma FormatOfPlainHead(c: char, rest: string)
    requires c != '%'
    ensures FormatNoArgs([c] + rest) == [c] + FormatNoArgs(rest)
  {
    var e := [c] + rest;
    assert e[0] == c && e[1..] == rest;
    assert FormatNoArgs(e) == FormatPlain(e);
  }

  /** A directive at the start prints its text, and the rest is formatted after it. */
  lemma FormatOfDirective(s: string, out: string, n: nat, post: string)
    requires |s| > 0 && s[0] == '%' && Directive(s[1..]) == (out, n) && s[1 + n..] == post
    ensures FormatNoArgs(s) == out + FormatNoArgs(post)
  {
  }

  /** Plain text followed by a directive: the text, then what the directive and the rest print. */
  lemma PrefixThenDirective(pre: string, s: string, out: string, post: string)
    requires NoPercent(pre) && FormatNoArgs(s) == out + FormatNoArgs(post)
    ensures FormatNoArgs(pre + s) == pre + out + FormatNoArgs(post)
  {
    FormatOfLiteralPrefix(pre, s);
    var f := FormatNoArgs(post);
    assert pre + (out + f) == pre + out + f;
  }

  /** A directive of flags and a verb at the start of `s`, with `post` after it. */
  predicate FlagsVerbThen(s: string, flags: string, c: char, post: string) {
    && s == "%" + flags + [c] + post
    && (forall k :: 0 <= k < |flags| ==> IsFlag(flags[k]))
    && IsVerbChar(c)
  }

  /** Such a directive is a verb with no operand, and formatting resumes after the verb. */
  lemma FlagsVerbDirective(s: string, flags: string, c: char, post: string)
    requires FlagsVerbThen(s, flags, c, post)
    ensures |s| > 0 && s[0] == '%'
    ensures Directive(s[1..]) == (VerbText(c), |flags| + 1)
    ensures s[1 + (|flags| + 1)..] == post
  {
    FlagsVerbLayout(s, flags, c, post);
    DirectiveOfFlagsAndVerb(s[1..], |flags|);
  }

  /** Where the flags, the verb and the rest sit in such a directive. */
  lemma FlagsVerbLayout(s: string, flags: string, c: char, post: string)
    requires FlagsVerbThen(s, flags, c, post)
    ensures |s| > 0 && s[0] == '%'
    ensures |flags| < |s[1..]| && s[1..][|flags|] == c
    ensures forall k :: 0 <= k < |flags| ==> IsFlag(s[1..][k])
    ensures s[1 + (|flags| + 1)..] == post
  {
    var t := s[1..];
    assert t == flags + [c] + post;
    assert forall k :: 0 <= k < |flags| ==> t[k] == flags[k];
  }

  /**
    A percent sign, then flags, then a character that cannot continue a
    directive: that character is a verb with no operand.
   */
  lemma PercentFlagsVerb(pre: string, s: string, flags: string, c: char, post: string)
    requires NoPercent(pre) && FlagsVerbThen(s, flags, c, post)
    ensures FormatNoArgs(pre + s) == pre + VerbText(c) + FormatNoArgs(post)
  {
    FlagsVerbDirective(s, flags, c, post);
    FormatOfDirective(s, VerbText(c), |flags| + 1, post);
    PrefixThenDirective(pre, s, VerbText(c), post);
  }

  /**
    A task error reported as "disk 100% full" reads
    "disk 100%!f(MISSING)ull": the space is a flag and `f` a verb.
   */
  lemma DiskFullExample()
    ensures FormatNoArgs("disk 100" + "% full") == "disk 100%!f(MISSING)ull"
  {
    assert FlagsVerbThen("% full", " ", 'f', "ull");
    PercentFlagsVerb("disk 100", "% full", " ", 'f', "ull");
    FormatOfPlainText("ull");
    assert VerbText('f') == "%!f(MISSING)";
    assert "disk 100" + "%!f(MISSING)" + "ull" == "disk 100%!f(MISSING)ull";
  }

  /** A trailing percent sign has no verb. */
  lemma TrailingPercent(pre: string)
    requires NoPercent(pre)
    ensures FormatNoArgs(pre + "%") == pre + NoVerb
  {
    var s := "%";
    assert s[1..] == "";
    ScanAtEnd("", Flags);
    FormatOfDirective(s, NoVerb, 0, "");
    assert NoVerb + "" == NoVerb;
    FormatOfLiteralPrefix(pre, s);
  }
}
