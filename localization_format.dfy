/** The `{type:name}` template language that `CLocalization::Format_V`
    (teeuniverses/components/localization.cpp) expands, as a function of
    the template, the arguments and the ICU formatters of the language.

    `Format_V` is a loop over the template with four state variables
    (`Start`, `ParamTypeStart`, `ParamNameStart`, `ParamNameLength`);
    `Scan` below follows that loop one character at a time and returns
    what it appends as pieces: literal text and closed placeholders.
    `Render` expands those pieces into text. The lemmas then say what that
    text is for the shapes a template can take: plain text, a complete
    placeholder, a placeholder without a name, and an unterminated one.

    Templates are UTF-8 in the source and `str_utf8_forward` steps over
    whole code points; here a template is a sequence of characters and
    each step moves by one. */
module LocalizationFormat {
  import opened CBase
  import opened SystemString

  /** The ICU time units `sec:` formats with. */
  datatype TimeUnit = Minute | Second

  /** The ICU formatters of a language, as the text each produces for a
      value; `None` stands for an ICU failure (a formatter that could not
      be created included). */
  datatype Formatters = Formatters(
    number: int -> Option<string>,
    percent: real -> Option<string>,
    duration: (int, TimeUnit) -> Option<string>)

  /** What an argument's value pointer yields when it is read as each of
      the types a placeholder can name. */
  datatype ArgValue = ArgValue(asString: string, asInt: int, asUllint: nat, asUint: nat, asFloat: real)

  /** One name/value pair of the variable arguments. The C list ends at
      the first NULL name; here it ends with the sequence. */
  datatype Arg = Arg(name: string, value: ArgValue)

  /** Everything a placeholder expands against. */
  datatype Env = Env(args: seq<Arg>, formatters: Formatters)

  /** The scan of `Format_V`: copying literal text that began at `start`,
      reading a placeholder type that began at `typeStart`, or reading a
      placeholder name that began at `nameStart`, `nameLength` characters
      of it read so far. */
  datatype ScanState =
    | Literal(start: int)
    | InType(typeStart: int)
    | InName(typeStart: int, nameStart: int, nameLength: int)

  /** `AppendNumber`: the formatted number, or `_NUMBER_` on failure. */
  function NumberText(fm: Formatters, n: int): string {
    match fm.number(n)
    case Some(s) => s
    case None => "_NUMBER_"
  }

  /** `AppendPercent`: the formatted ratio, or `_PERCENT_` on failure. */
  function PercentText(fm: Formatters, x: real): string {
    match fm.percent(x)
    case Some(s) => s
    case None => "_PERCENT_"
  }

  /** `AppendDuration`: the formatted amount, or `_DURATION_` on failure. */
  function DurationText(fm: Formatters, n: int, unit: TimeUnit): string {
    match fm.duration(n, unit)
    case Some(s) => s
    case None => "_DURATION_"
  }

  /** The `sec:` placeholder: minutes `d / 60` (C division) and the
      remaining seconds. Minutes are shown when there are any, followed by
      ", " and the seconds only when those are non-zero; otherwise the
      seconds alone are shown, even when they are 0. */
  function SecondsText(fm: Formatters, d: int): string {
    var minutes := TruncDiv(d, 60);
    var seconds := d - minutes * 60;
    if minutes > 0 then
      DurationText(fm, minutes, Minute) + (if seconds > 0 then ", " + DurationText(fm, seconds, Second) else "")
    else
      DurationText(fm, seconds, Second)
  }

  /** On a non-negative duration `sec:` is the usual minutes-and-seconds
      split. */
  lemma SecondsSplit(fm: Formatters, d: int)
    requires d >= 0
    ensures d < 60 ==> SecondsText(fm, d) == DurationText(fm, d, Second)
    ensures d >= 60 && d % 60 == 0 ==> SecondsText(fm, d) == DurationText(fm, d / 60, Minute)
    ensures d >= 60 && d % 60 != 0 ==>
      SecondsText(fm, d) == DurationText(fm, d / 60, Minute) + ", " + DurationText(fm, d % 60, Second)
  {
    TruncDivNonNegative(d, 60);
    assert d - (d / 60) * 60 == d % 60;
  }

  /** The type test of a placeholder: `str_comp_num(tag, type, 4)`, so only
      the first four characters of the tag take part ("ulli", "perc"). */
  predicate TypeIs(tag: string, typeText: string) {
    StrCompNum(tag, typeText, 4) == 0
  }

  /** A four-character tag matches exactly the type texts it begins. */
  lemma TypeIsPrefix(tag: string, typeText: string)
    requires |tag| >= 4
    ensures TypeIs(tag, typeText) <==> tag[..4] <= typeText
  {
    if TypeIs(tag, typeText) {
      assert Prefix(tag, 4) == tag[..4];
      assert |Prefix(typeText, 4)| == 4;
      assert typeText[..4] == tag[..4];
    }
  }

  /** The text a matched argument expands to, by the placeholder's type
      (the characters from the type's start on); an unknown type expands
      to nothing. Unsigned arguments are stored into an `int` first. */
  function Expand(typeText: string, v: ArgValue, fm: Formatters): (r: string)
    ensures TypeIs("str:", typeText) ==> r == v.asString
    ensures !TypeIs("str:", typeText) && TypeIs("int:", typeText) ==> r == NumberText(fm, v.asInt)
  {
    if TypeIs("str:", typeText) then v.asString
    else if TypeIs("int:", typeText) then NumberText(fm, v.asInt)
    else if TypeIs("ullint:", typeText) then NumberText(fm, Wrap32(v.asUllint))
    else if TypeIs("uint:", typeText) then NumberText(fm, Wrap32(v.asUint))
    else if TypeIs("percent:", typeText) then PercentText(fm, v.asFloat)
    else if TypeIs("sec:", typeText) then SecondsText(fm, v.asInt)
    else ""
  }

  /** The first four characters of the type alone decide the expansion:
      "str:", "int:", "ulli", "uint", "perc" and "sec:" select the six
      formats, and any other type expands to nothing. */
  lemma ExpandByTypePrefix(typeText: string, v: ArgValue, fm: Formatters)
    ensures "str:" <= typeText ==> Expand(typeText, v, fm) == v.asString
    ensures "int:" <= typeText ==> Expand(typeText, v, fm) == NumberText(fm, v.asInt)
    ensures "ulli" <= typeText ==> Expand(typeText, v, fm) == NumberText(fm, Wrap32(v.asUllint))
    ensures "uint" <= typeText ==> Expand(typeText, v, fm) == NumberText(fm, Wrap32(v.asUint))
    ensures "perc" <= typeText ==> Expand(typeText, v, fm) == PercentText(fm, v.asFloat)
    ensures "sec:" <= typeText ==> Expand(typeText, v, fm) == SecondsText(fm, v.asInt)
    ensures !("str:" <= typeText || "int:" <= typeText || "ulli" <= typeText
              || "uint" <= typeText || "perc" <= typeText || "sec:" <= typeText)
      ==> Expand(typeText, v, fm) == ""
  {
    TypeIsPrefix("str:", typeText);
    TypeIsPrefix("int:", typeText);
    TypeIsPrefix("ullint:", typeText);
    TypeIsPrefix("uint:", typeText);
    TypeIsPrefix("percent:", typeText);
    TypeIsPrefix("sec:", typeText);
    assert "ullint:"[..4] == "ulli";
    assert "percent:"[..4] == "perc";
    assert "uint:"[..4] == "uint";
  }

  /** The argument a placeholder name selects: the first one whose name
      agrees with `nameText` on `nameLength` characters, or -1. */
  function FirstMatch(args: seq<Arg>, nameText: string, nameLength: int): (k: int)
    ensures -1 <= k < |args|
    ensures k >= 0 ==> StrCompNum(nameText, args[k].name, nameLength) == 0
    ensures forall j :: 0 <= j < |args| && (k < 0 || j < k) ==> StrCompNum(nameText, args[j].name, nameLength) != 0
  {
    if args == [] then -1
    else if StrCompNum(nameText, args[0].name, nameLength) == 0 then 0
    else
      var k := FirstMatch(args[1..], nameText, nameLength);
      if k < 0 then -1 else k + 1
  }

  /** What a closed placeholder appends: the expansion of the first
      matching argument, or nothing when no argument matches. */
  function Substitute(typeText: string, nameText: string, nameLength: int, env: Env): (r: string)
    ensures FirstMatch(env.args, nameText, nameLength) < 0 ==> r == ""
  {
    var k := FirstMatch(env.args, nameText, nameLength);
    if k < 0 then "" else Expand(typeText, env.args[k].value, env.formatters)
  }

  /** A placeholder name selects an argument exactly when it is a prefix
      of the argument's name: the comparison stops after the placeholder
      name's own length. */
  lemma NameMatchIsPrefix(name: string, rest: string, argName: string)
    ensures StrCompNum(name + rest, argName, |name|) == 0 <==> name <= argName
  {
    if |name| > 0 {
      assert Prefix(name + rest, |name|) == name;
      if name <= argName {
        assert Prefix(argName, |name|) == name;
      }
    }
  }

  /** `str_utf8_forward`: one character on, or nowhere at the terminator. */
  function Forward(text: string, i: int): (r: int)
    requires 0 <= i <= |text|
    ensures r == if i < |text| then i + 1 else i
  {
    if i < |text| then i + 1 else i
  }

  /** The positions a scan state holds lie before the scan position, as in
      `Format_V`, and the name length counts the name read so far. */
  predicate StateOk(text: string, i: int, st: ScanState) {
    0 <= i <= |text| &&
    match st
    case Literal(start) => 0 <= start <= i
    case InType(typeStart) => 0 <= typeStart <= i
    case InName(typeStart, nameStart, nameLength) =>
      0 <= typeStart < nameStart <= i && nameLength == i - nameStart
  }

  /** What the scan of `Format_V` cuts a template into: literal text,
      appended as it is, and closed placeholders, each given by the text
      from its type's start, the text from its name's start and the
      length of its name. */
  datatype Piece =
    | Verbatim(text: string)
    | Placeholder(typeText: string, nameText: string, nameLength: int)

  /** Literal text as pieces; appending no characters appends nothing. */
  function Lit(t: string): seq<Piece> {
    if t == [] then [] else [Verbatim(t)]
  }

  /** The pieces `Format_V` appends from position `i` on in state `st`. */
  function Scan(text: string, i: int, st: ScanState): seq<Piece>
    requires StateOk(text, i, st)
    decreases |text| - i
  {
    if i == |text| then
      if i > 0 && st.Literal? then Lit(text[st.start..i]) else []
    else
      match st
      case Literal(start) =>
        if text[i] == '{' then Lit(text[start..i]) + Scan(text, Forward(text, i + 1), InType(i + 1))
        else Scan(text, i + 1, st)
      case InType(typeStart) =>
        if text[i] == ':' then Scan(text, i + 1, InName(typeStart, i + 1, 0))
        else if text[i] == '}' then Scan(text, i + 1, Literal(i + 1))
        else Scan(text, i + 1, st)
      case InName(typeStart, nameStart, nameLength) =>
        if text[i] == '}' then
          [Placeholder(text[typeStart..], text[nameStart..], nameLength)] + Scan(text, i + 1, Literal(i + 1))
        else Scan(text, i + 1, InName(typeStart, nameStart, nameLength + 1))
  }

  /** The text appended for a piece. */
  function PieceText(pc: Piece, env: Env): string {
    match pc
    case Verbatim(t) => t
    case Placeholder(typeText, nameText, nameLength) => Substitute(typeText, nameText, nameLength, env)
  }

  /** The text appended for a sequence of pieces, in order, each piece
      giving the text `expand` makes of it. */
  function Expanded(pieces: seq<Piece>, expand: Piece -> string): string {
    if pieces == [] then "" else expand(pieces[0]) + Expanded(pieces[1..], expand)
  }

  /** Expanding is compositional: the pieces of two parts of a template
      come out one after the other. */
  lemma {:induction false} ExpandedAppend(a: seq<Piece>, b: seq<Piece>, expand: Piece -> string)
    ensures Expanded(a + b, expand) == Expanded(a, expand) + Expanded(b, expand)
  {
    if a == [] {
      assert a + b == b;
    } else {
      assert (a + b)[0] == a[0];
      assert (a + b)[1..] == a[1..] + b;
      ExpandedAppend(a[1..], b, expand);
      assert Expanded(a + b, expand) == expand(a[0]) + (Expanded(a[1..], expand) + Expanded(b, expand));
    }
  }

  /** The expansion of pieces against `env`. */
  function Expander(env: Env): Piece -> string {
    pc => PieceText(pc, env)
  }

  /** Literal text in front of further pieces comes out first. */
  lemma ExpandedLit(t: string, rest: seq<Piece>, env: Env)
    ensures Expanded(Lit(t) + rest, Expander(env)) == t + Expanded(rest, Expander(env))
  {
    if t != [] {
      assert (Lit(t) + rest)[1..] == rest;
    } else {
      assert Lit(t) + rest == rest;
    }
  }

  /** A closed placeholder in front of further pieces comes out first, as
      its substitution. */
  lemma ExpandedPlaceholder(pc: Piece, rest: seq<Piece>, env: Env)
    requires pc.Placeholder?
    ensures Expanded([pc] + rest, Expander(env))
         == Substitute(pc.typeText, pc.nameText, pc.nameLength, env) + Expanded(rest, Expander(env))
  {
    assert ([pc] + rest)[1..] == rest;
  }

  /** The expansion a placeholder piece gets against `env` is its
      substitution. */
  lemma ExpanderPlaceholder(env: Env, typeText: string, nameText: string, nameLength: int)
    ensures Expander(env)(Placeholder(typeText, nameText, nameLength)) == Substitute(typeText, nameText, nameLength, env)
  {
  }

  /** Reading the '}' that closes a named placeholder appends the
      placeholder's expansion in front of what the rest of the template
      appends. */
  lemma ClosedPlaceholderStep(before: string, after: string, text: string, iter: int, st: ScanState, expand: Piece -> string)
    requires StateOk(text, iter, st) && st.InName? && iter < |text| && text[iter] == '}'
    requires after == before + expand(Placeholder(text[st.typeStart..], text[st.nameStart..], st.nameLength))
    ensures after + Expanded(Scan(text, iter + 1, Literal(iter + 1)), expand)
         == before + Expanded(Scan(text, iter, st), expand)
  {
    ScanStep(text, iter, st);
    var pc := Placeholder(text[st.typeStart..], text[st.nameStart..], st.nameLength);
    var rest := Scan(text, iter + 1, Literal(iter + 1));
    assert ([pc] + rest)[1..] == rest;
  }

  /** The whole text `Format_V` appends for a template. */
  function Render(text: string, env: Env): string {
    Expanded(Scan(text, 0, Literal(0)), Expander(env))
  }

  /** One character of the scan, in each state: what it appends and the
      state it leads to. */
  lemma ScanStep(text: string, i: int, st: ScanState)
    requires StateOk(text, i, st) && i < |text|
    ensures st.Literal? && text[i] == '{' ==>
      Scan(text, i, st) == Lit(text[st.start..i]) + Scan(text, Forward(text, i + 1), InType(i + 1))
    ensures st.Literal? && text[i] != '{' ==> Scan(text, i, st) == Scan(text, i + 1, st)
    ensures st.InType? && text[i] == ':' ==> Scan(text, i, st) == Scan(text, i + 1, InName(st.typeStart, i + 1, 0))
    ensures st.InType? && text[i] == '}' ==> Scan(text, i, st) == Scan(text, i + 1, Literal(i + 1))
    ensures st.InType? && text[i] != ':' && text[i] != '}' ==> Scan(text, i, st) == Scan(text, i + 1, st)
    ensures st.InName? && text[i] == '}' ==>
      Scan(text, i, st) == [Placeholder(text[st.typeStart..], text[st.nameStart..], st.nameLength)] + Scan(text, i + 1, Literal(i + 1))
    ensures st.InName? && text[i] != '}' ==>
      Scan(text, i, st) == Scan(text, i + 1, InName(st.typeStart, st.nameStart, st.nameLength + 1))
  {
  }

  /** Literal text without '{' is passed over and copied later. */
  lemma {:induction false} SkipLiteral(text: string, i: int, j: int, start: int)
    requires 0 <= start <= i <= j <= |text|
    requires forall k :: i <= k < j ==> text[k] != '{'
    ensures Scan(text, i, Literal(start)) == Scan(text, j, Literal(start))
    decreases j - i
  {
    if i < j {
      SkipLiteral(text, i + 1, j, start);
    }
  }

  /** A placeholder type is read up to its ':' or '}'. */
  lemma {:induction false} SkipType(text: string, i: int, j: int, typeStart: int)
    requires 0 <= typeStart <= i <= j <= |text|
    requires forall k :: i <= k < j ==> text[k] != ':' && text[k] != '}'
    ensures Scan(text, i, InType(typeStart)) == Scan(text, j, InType(typeStart))
    decreases j - i
  {
    if i < j {
      SkipType(text, i + 1, j, typeStart);
    }
  }

  /** A placeholder name is read up to its '}', counting its length. */
  lemma {:induction false} SkipName(text: string, i: int, j: int, typeStart: int, nameStart: int)
    requires 0 <= typeStart < nameStart <= i <= j <= |text|
    requires forall k :: i <= k < j ==> text[k] != '}'
    ensures Scan(text, i, InName(typeStart, nameStart, i - nameStart))
         == Scan(text, j, InName(typeStart, nameStart, j - nameStart))
    decreases j - i
  {
    if i < j {
      SkipName(text, i + 1, j, typeStart, nameStart);
    }
  }

  /** Without a closing '}' ahead, an open placeholder yields nothing. */
  lemma {:induction false} UnclosedYieldsNothing(text: string, i: int, st: ScanState)
    requires StateOk(text, i, st) && !st.Literal?
    requires forall k :: i <= k < |text| ==> text[k] != '}'
    ensures Scan(text, i, st) == []
    decreases |text| - i
  {
    if i < |text| {
      match st
      case InType(typeStart) =>
        if text[i] == ':' {
          UnclosedYieldsNothing(text, i + 1, InName(typeStart, i + 1, 0));
        } else {
          UnclosedYieldsNothing(text, i + 1, st);
        }
      case InName(typeStart, nameStart, nameLength) =>
        UnclosedYieldsNothing(text, i + 1, InName(typeStart, nameStart, nameLength + 1));
    }
  }

  /** `suffix` is the template from position `p` on. */
  predicate SuffixAt(suffix: string, text: string, p: int) {
    0 <= p <= |text| && |suffix| == |text| - p && forall k :: 0 <= k < |suffix| ==> suffix[k] == text[k + p]
  }

  /** The scan only looks at the template from the positions it holds on,
      so literal text from `start` on is cut alike in the suffix that
      begins at or before `start`. The three lemmas below follow the three
      states of the scan. */
  lemma {:induction false} ScanSuffixLiteral(text: string, suffix: string, p: int, i: int, start: int)
    requires SuffixAt(suffix, text, p)
    requires p <= start <= i <= |text|
    ensures Scan(text, i, Literal(start)) == Scan(suffix, i - p, Literal(start - p))
    decreases |text| - i
  {
    if i == |text| {
      if i > 0 && i - p == 0 {
        assert text[start..i] == [];
      }
      if i - p > 0 {
        assert suffix[start - p..i - p] == text[start..i];
      }
    } else if text[i] == '{' {
      ScanSuffixType(text, suffix, p, Forward(text, i + 1), i + 1);
      OpenAlike(text, suffix, p, i, start);
    } else {
      ScanSuffixLiteral(text, suffix, p, i + 1, start);
      SkipAlike(text, suffix, p, i, start);
    }
  }

  /** The opening step of `ScanSuffixLiteral`, from the facts it needs. */
  lemma OpenAlike(text: string, suffix: string, p: int, i: int, start: int)
    requires SuffixAt(suffix, text, p)
    requires p <= start <= i < |text| && text[i] == '{'
    requires Scan(text, Forward(text, i + 1), InType(i + 1)) == Scan(suffix, Forward(text, i + 1) - p, InType(i + 1 - p))
    ensures Scan(text, i, Literal(start)) == Scan(suffix, i - p, Literal(start - p))
  {
    var st, su := Literal(start), Literal(start - p);
    assert suffix[i - p] == text[i];
    SuffixSlice(text, suffix, p, start, i);
    ScanStep(text, i, st);
    ScanStep(suffix, i - p, su);
    var j := Forward(text, i + 1);
    assert j - p == Forward(suffix, i - p + 1);
    var tt, ts := InType(i + 1), InType(i - p + 1);
    assert ts == InType(i + 1 - p);
    var rest, restSuffix := Scan(text, j, tt), Scan(suffix, j - p, ts);
    assert rest == restSuffix;
    var lit := Lit(text[start..i]);
    assert Scan(text, i, st) == lit + rest;
    assert Scan(suffix, i - p, su) == lit + restSuffix;
  }

  /** A slice of the template past `p` is the same slice of its suffix. */
  lemma SuffixSlice(text: string, suffix: string, p: int, a: int, b: int)
    requires SuffixAt(suffix, text, p)
    requires p <= a <= b <= |text|
    ensures suffix[a - p..b - p] == text[a..b]
  {
    forall k | 0 <= k < b - a
      ensures suffix[a - p..b - p][k] == text[a..b][k]
    {
      assert suffix[a - p + k] == text[a + k];
    }
  }

  /** A literal step of `ScanSuffixLiteral`, from the facts it needs. */
  lemma SkipAlike(text: string, suffix: string, p: int, i: int, start: int)
    requires SuffixAt(suffix, text, p)
    requires p <= start <= i < |text| && text[i] != '{'
    requires Scan(text, i + 1, Literal(start)) == Scan(suffix, i + 1 - p, Literal(start - p))
    ensures Scan(text, i, Literal(start)) == Scan(suffix, i - p, Literal(start - p))
  {
    var st, su := Literal(start), Literal(start - p);
    assert suffix[i - p] == text[i];
    ScanStep(text, i, st);
    ScanStep(suffix, i - p, su);
    assert i - p + 1 == i + 1 - p;
  }

  lemma {:induction false} ScanSuffixType(text: string, suffix: string, p: int, i: int, typeStart: int)
    requires SuffixAt(suffix, text, p)
    requires p <= typeStart <= i <= |text|
    ensures Scan(text, i, InType(typeStart)) == Scan(suffix, i - p, InType(typeStart - p))
    decreases |text| - i
  {
    if i < |text| {
      assert suffix[i - p] == text[i];
      if text[i] == ':' {
        ScanSuffixName(text, suffix, p, i + 1, typeStart, i + 1);
      } else if text[i] == '}' {
        ScanSuffixLiteral(text, suffix, p, i + 1, i + 1);
      } else {
        ScanSuffixType(text, suffix, p, i + 1, typeStart);
      }
    }
  }

  lemma {:induction false} ScanSuffixName(text: string, suffix: string, p: int, i: int, typeStart: int, nameStart: int)
    requires SuffixAt(suffix, text, p)
    requires p <= typeStart < nameStart <= i <= |text|
    ensures Scan(text, i, InName(typeStart, nameStart, i - nameStart))
         == Scan(suffix, i - p, InName(typeStart - p, nameStart - p, i - nameStart))
    decreases |text| - i
  {
    if i < |text| {
      assert suffix[i - p] == text[i];
      if text[i] == '}' {
        assert suffix[typeStart - p..] == text[typeStart..];
        assert suffix[nameStart - p..] == text[nameStart..];
        ScanSuffixLiteral(text, suffix, p, i + 1, i + 1);
        CloseAlike(text, suffix, p, i, typeStart, nameStart);
      } else {
        ScanSuffixName(text, suffix, p, i + 1, typeStart, nameStart);
      }
    }
  }

  /** The closing step of `ScanSuffixName`, from the facts it needs. */
  lemma CloseAlike(text: string, suffix: string, p: int, i: int, typeStart: int, nameStart: int)
    requires 0 <= p <= typeStart < nameStart <= i < |text| && |suffix| == |text| - p
    requires text[i] == '}' && suffix[i - p] == '}'
    requires suffix[typeStart - p..] == text[typeStart..] && suffix[nameStart - p..] == text[nameStart..]
    requires Scan(text, i + 1, Literal(i + 1)) == Scan(suffix, i + 1 - p, Literal(i + 1 - p))
    ensures Scan(text, i, InName(typeStart, nameStart, i - nameStart))
         == Scan(suffix, i - p, InName(typeStart - p, nameStart - p, i - nameStart))
  {
    var st, su := InName(typeStart, nameStart, i - nameStart), InName(typeStart - p, nameStart - p, i - nameStart);
    ScanStep(text, i, st);
    ScanStep(suffix, i - p, su);
    var lt, ls := Literal(i + 1), Literal(i - p + 1);
    assert ls == Literal(i + 1 - p);
    var rest, restSuffix := Scan(text, i + 1, lt), Scan(suffix, i - p + 1, ls);
    assert rest == restSuffix;
    var pc := Placeholder(text[typeStart..], text[nameStart..], i - nameStart);
    assert Scan(text, i, st) == [pc] + rest;
    assert Scan(suffix, i - p, su) == [pc] + restSuffix;
  }

  /** A template without '{' is appended verbatim. */
  lemma PlainText(text: string, env: Env)
    requires forall k :: 0 <= k < |text| ==> text[k] != '{'
    ensures Render(text, env) == text
  {
    SkipLiteral(text, 0, |text|, 0);
    assert text[0..|text|] == text;
    if |text| > 0 {
      assert Expanded([Verbatim(text)], Expander(env)) == text;
    }
  }

  /** The literal text before the first '{' comes out as it is, and the
      scan goes on in the placeholder's type, past the character after
      the '{'. */
  lemma OpenPlaceholder(text: string, a: int)
    requires 0 <= a < |text| && text[a] == '{'
    requires forall k :: 0 <= k < a ==> text[k] != '{'
    ensures Scan(text, 0, Literal(0)) == Lit(text[..a]) + Scan(text, Forward(text, a + 1), InType(a + 1))
  {
    SkipLiteral(text, 0, a, 0);
    assert text[0..a] == text[..a];
  }

  /** A placeholder type ends at its first ':', where the name begins. */
  lemma TypeThenName(text: string, i: int, b: int, typeStart: int)
    requires 0 <= typeStart <= i <= b < |text| && text[b] == ':'
    requires forall k :: i <= k < b ==> text[k] != ':' && text[k] != '}'
    ensures Scan(text, i, InType(typeStart)) == Scan(text, b + 1, InName(typeStart, b + 1, 0))
  {
    SkipType(text, i, b, typeStart);
  }

  /** A placeholder type closed by '}' yields nothing; literal text
      starts after it. */
  lemma TypeThenClose(text: string, i: int, b: int, typeStart: int)
    requires 0 <= typeStart <= i <= b < |text| && text[b] == '}'
    requires forall k :: i <= k < b ==> text[k] != ':' && text[k] != '}'
    ensures Scan(text, i, InType(typeStart)) == Scan(text, b + 1, Literal(b + 1))
  {
    SkipType(text, i, b, typeStart);
  }

  /** A placeholder name ends at its first '}', which closes the
      placeholder. */
  lemma NameThenClose(text: string, nameStart: int, e: int, typeStart: int)
    requires 0 <= typeStart < nameStart <= e < |text| && text[e] == '}'
    requires forall k :: nameStart <= k < e ==> text[k] != '}'
    ensures Scan(text, nameStart, InName(typeStart, nameStart, 0))
         == [Placeholder(text[typeStart..], text[nameStart..], e - nameStart)] + Scan(text, e + 1, Literal(e + 1))
  {
    SkipName(text, nameStart, e, typeStart, nameStart);
  }

  /** A template that opens with literal text and a complete placeholder:
      the literal text comes out first, then the placeholder's
      substitution, then the rest of the template. The character right
      after '{' is never examined (the scan steps over it), so it belongs
      to the type whatever it is. */
  lemma {:induction false} PlaceholderExpands(lit: string, c: char, ty: string, name: string, rest: string, env: Env)
    requires forall k :: 0 <= k < |lit| ==> lit[k] != '{'
    requires forall k :: 0 <= k < |ty| ==> ty[k] != ':' && ty[k] != '}'
    requires forall k :: 0 <= k < |name| ==> name[k] != '}'
    ensures Render(lit + "{" + [c] + ty + ":" + name + "}" + rest, env)
         == lit + Substitute([c] + ty + ":" + name + "}" + rest, name + "}" + rest, |name|, env) + Render(rest, env)
  {
    var pc := Placeholder([c] + ty + ":" + name + "}" + rest, name + "}" + rest, |name|);
    var tail := Scan(rest, 0, Literal(0));
    PlaceholderPieces(lit, c, ty, name, rest);
    var expand := Expander(env);
    ExpandedAppend(Lit(lit), [pc] + tail, expand);
    assert ([pc] + tail)[0] == pc && ([pc] + tail)[1..] == tail;
    assert Expanded(Lit(lit), expand) == lit;
  }

  /** The pieces of a template whose first '{' at `a` opens a placeholder
      with its ':' at `b` and its '}' at `e`. */
  lemma PlaceholderAt(text: string, a: int, b: int, e: int)
    requires 0 <= a && a + 2 <= b < e < |text|
    requires text[a] == '{' && text[b] == ':' && text[e] == '}'
    requires forall k :: 0 <= k < a ==> text[k] != '{'
    requires forall k :: a + 2 <= k < b ==> text[k] != ':' && text[k] != '}'
    requires forall k :: b < k < e ==> text[k] != '}'
    ensures Scan(text, 0, Literal(0))
         == Lit(text[..a]) + ([Placeholder(text[a + 1..], text[b + 1..], e - b - 1)] + Scan(text[e + 1..], 0, Literal(0)))
  {
    OpenToName(text, a, b);
    NameToRest(text, a + 1, b, e);
  }

  /** The first half of `PlaceholderAt`: from the template's start to the
      first character of the placeholder's name. */
  lemma OpenToName(text: string, a: int, b: int)
    requires 0 <= a && a + 2 <= b < |text|
    requires text[a] == '{' && text[b] == ':'
    requires forall k :: 0 <= k < a ==> text[k] != '{'
    requires forall k :: a + 2 <= k < b ==> text[k] != ':' && text[k] != '}'
    ensures Scan(text, 0, Literal(0)) == Lit(text[..a]) + Scan(text, b + 1, InName(a + 1, b + 1, 0))
  {
    OpenPlaceholder(text, a);
    TypeThenName(text, a + 2, b, a + 1);
  }

  /** The second half of `PlaceholderAt`: the name closes the placeholder
      and the scan starts afresh on the rest of the template. */
  lemma NameToRest(text: string, typeStart: int, b: int, e: int)
    requires 0 <= typeStart <= b < e < |text| && text[e] == '}'
    requires forall k :: b < k < e ==> text[k] != '}'
    ensures Scan(text, b + 1, InName(typeStart, b + 1, 0))
         == [Placeholder(text[typeStart..], text[b + 1..], e - b - 1)] + Scan(text[e + 1..], 0, Literal(0))
  {
    NameThenClose(text, b + 1, e, typeStart);
    ScanSuffixLiteral(text, text[e + 1..], e + 1, e + 1, e + 1);
  }

  /** The pieces of a template that opens with literal text and a
      complete placeholder. */
  lemma {:induction false} PlaceholderPieces(lit: string, c: char, ty: string, name: string, rest: string)
    requires forall k :: 0 <= k < |lit| ==> lit[k] != '{'
    requires forall k :: 0 <= k < |ty| ==> ty[k] != ':' && ty[k] != '}'
    requires forall k :: 0 <= k < |name| ==> name[k] != '}'
    ensures Scan(lit + "{" + [c] + ty + ":" + name + "}" + rest, 0, Literal(0))
         == Lit(lit) + ([Placeholder([c] + ty + ":" + name + "}" + rest, name + "}" + rest, |name|)] + Scan(rest, 0, Literal(0)))
  {
    var text := lit + "{" + [c] + ty + ":" + name + "}" + rest;
    var a := |lit|;
    var b := a + 2 + |ty|;
    var e := b + 1 + |name|;
    assert forall k :: 0 <= k < a ==> text[k] == lit[k];
    assert forall k :: a + 2 <= k < b ==> text[k] == ty[k - a - 2];
    assert forall k :: b + 1 <= k < e ==> text[k] == name[k - b - 1];
    assert text[a] == '{' && text[b] == ':' && text[e] == '}';
    PlaceholderAt(text, a, b, e);
    assert text[..a] == lit;
    assert text[a + 1..] == [c] + ty + ":" + name + "}" + rest;
    assert text[b + 1..] == name + "}" + rest;
    assert text[e + 1..] == rest;
  }

  /** The pieces of a template whose first '{' at `a` opens a placeholder
      closed by '}' at `b` before any ':'. */
  lemma NamelessAt(text: string, a: int, b: int)
    requires 0 <= a && a + 2 <= b < |text|
    requires text[a] == '{' && text[b] == '}'
    requires forall k :: 0 <= k < a ==> text[k] != '{'
    requires forall k :: a + 2 <= k < b ==> text[k] != ':' && text[k] != '}'
    ensures Scan(text, 0, Literal(0)) == Lit(text[..a]) + Scan(text[b + 1..], 0, Literal(0))
  {
    OpenPlaceholder(text, a);
    TypeThenClose(text, a + 2, b, a + 1);
    ScanSuffixLiteral(text, text[b + 1..], b + 1, b + 1, b + 1);
  }

  /** A placeholder closed before any ':' has no name and appends
      nothing; the scan carries on after its '}'. */
  lemma {:induction false} NamelessPlaceholderDropped(lit: string, c: char, ty: string, rest: string, env: Env)
    requires forall k :: 0 <= k < |lit| ==> lit[k] != '{'
    requires forall k :: 0 <= k < |ty| ==> ty[k] != ':' && ty[k] != '}'
    ensures Render(lit + "{" + [c] + ty + "}" + rest, env) == lit + Render(rest, env)
  {
    var text := lit + "{" + [c] + ty + "}" + rest;
    var a := |lit|;
    var b := a + 2 + |ty|;
    assert forall k :: 0 <= k < a ==> text[k] == lit[k];
    assert forall k :: a + 2 <= k < b ==> text[k] == ty[k - a - 2];
    assert text[a] == '{' && text[b] == '}';
    NamelessAt(text, a, b);
    assert text[..a] == lit;
    assert text[b + 1..] == rest;
    var expand := Expander(env);
    ExpandedAppend(Lit(lit), Scan(rest, 0, Literal(0)), expand);
    assert Expanded(Lit(lit), expand) == lit;
  }

  /** A placeholder left open at the end of the template appends nothing:
      only the text before its '{' comes out. */
  lemma {:induction false} UnterminatedPlaceholderDropped(lit: string, tail: string, env: Env)
    requires forall k :: 0 <= k < |lit| ==> lit[k] != '{'
    requires forall k :: 1 <= k < |tail| ==> tail[k] != '}'
    ensures Render(lit + "{" + tail, env) == lit
  {
    var text := lit + "{" + tail;
    var a := |lit|;
    assert forall k :: 0 <= k < a ==> text[k] == lit[k];
    assert text[a] == '{';
    assert forall k :: a + 2 <= k < |text| ==> text[k] == tail[k - a - 1];
    SkipLiteral(text, 0, a, 0);
    assert text[0..a] == lit;
    UnclosedYieldsNothing(text, Forward(text, a + 1), InType(a + 1));
    assert Scan(text, 0, Literal(0)) == Lit(lit) + [];
    assert Lit(lit) + [] == Lit(lit);
    assert Expanded(Lit(lit), Expander(env)) == lit;
  }
}
