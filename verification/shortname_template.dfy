/** generate_shortname and generate_shortname_callback: a course shortname built from
    a template in which `%f` stands for the full name and `%i` for the idnumber, with
    an optional case modifier (`+` upper, `-` lower, `~` title) and an optional run of
    digits whose last digit truncates the replacement. `%` right after another `%`
    starts no placeholder. The Unicode case functions of core_text and
    clean_param(PARAM_TEXT) are parameters of the model. */
module ShortnameTemplate {
  import opened PhpText

  /** core_text::strtoupper / strtolower / strtotitle and clean_param(PARAM_TEXT). */
  datatype TextOps = TextOps(upper: string -> string, lower: string -> string,
                             title: string -> string, clean: string -> string)

  /** One piece of a template as the replacement scan sees it: a character outside
      any match, or a match of `(?<!%)%([+~-])?(\d)*([fi])` with its modifier, its
      whole run of digits and its field letter. */
  datatype Token = Literal(c: char) | Placeholder(modifier: Option<char>, digits: string, field: FieldLetter)

  /** `f` (the full name) or `i` (the idnumber). */
  datatype FieldLetter = FullnameLetter | IdnumberLetter

  predicate IsModifier(c: char) {
    c == '+' || c == '~' || c == '-'
  }

  function Letter(f: FieldLetter): char {
    if f == FullnameLetter then 'f' else 'i'
  }

  /** The text a token was read from. */
  function Source(tok: Token): string {
    match tok
    case Literal(c) => [c]
    case Placeholder(m, d, f) => "%" + (if m.Some? then [m.value] else "") + d + [Letter(f)]
  }

  /** The length of that text. */
  function Width(tok: Token): nat {
    match tok
    case Literal(_) => 1
    case Placeholder(m, d, _) => (if m.Some? then 3 else 2) + |d|
  }

  function Sources(toks: seq<Token>): string
    decreases |toks|
  {
    if toks == [] then "" else Source(toks[0]) + Sources(toks[1..])
  }

  /** The placeholder starting at position i, if the pattern matches there. The
      lookbehind looks at the template itself, so a `%` that ended the previous
      match still blocks a placeholder right after it. The digit run is greedy and
      the modifier optional; giving either back never lets the pattern match, so
      the first attempt decides (MatchAtExact: the pattern occurs at i exactly
      when this returns its placeholder). */
  function MatchAt(t: string, i: nat): (r: Option<Token>)
    requires i < |t|
    ensures r.Some? ==> r.value.Placeholder?
    ensures r.Some? ==> t[i] == '%' && (i == 0 || t[i - 1] != '%') && i + Width(r.value) <= |t|
  {
    if t[i] == '%' && (i == 0 || t[i - 1] != '%') then
      var m := if i + 1 < |t| && IsModifier(t[i + 1]) then Some(t[i + 1]) else None;
      var j := if m.Some? then i + 2 else i + 1;
      var k := DigitsEnd(t, j);
      if k < |t| && t[k] == 'f' then Some(Placeholder(m, t[j..k], FullnameLetter))
      else if k < |t| && t[k] == 'i' then Some(Placeholder(m, t[j..k], IdnumberLetter))
      else None
    else None
  }

  /** A match covers exactly the text of its placeholder, whose digits are a
      run of decimal digits. */
  lemma MatchAtSource(t: string, i: nat)
    requires i < |t| && MatchAt(t, i).Some?
    ensures var p := MatchAt(t, i).value;
      |Source(p)| == Width(p) && t[i..i + Width(p)] == Source(p) && AllDigits(p.digits)
  {
    var m := if i + 1 < |t| && IsModifier(t[i + 1]) then Some(t[i + 1]) else None;
    var j := if m.Some? then i + 2 else i + 1;
    var k := DigitsEnd(t, j);
    var d := t[j..k];
    DigitsEndRun(t, j);
    var f := if t[k] == 'f' then FullnameLetter else IdnumberLetter;
    var p := Placeholder(m, d, f);
    assert MatchAt(t, i) == Some(p);
    var mod := if m.Some? then [m.value] else "";
    assert Letter(f) == t[k];
    assert t[i + 1..j] == mod;
    assert t[i..j] == [t[i]] + mod;
    assert t[j..k + 1] == d + [t[k]];
    assert t[i..k + 1] == t[i..j] + t[j..k + 1];
    assert Source(p) == ("%" + mod) + (d + [t[k]]);
    assert t[i] == '%';
    assert t[i..k + 1] == Source(p);
    assert Width(p) == k + 1 - i;
  }

  /** The template from position i on, split into literal characters and
      placeholders, left to right as a PCRE replace-with-callback scans it. */
  function Tokens(t: string, i: nat): seq<Token>
    requires i <= |t|
    decreases |t| - i
  {
    if i == |t| then []
    else
      var m := MatchAt(t, i);
      if m.Some? then [m.value] + Tokens(t, i + Width(m.value))
      else [Literal(t[i])] + Tokens(t, i + 1)
  }

  /** core_text::substr($s, 0, $n): the first n characters, or all of them. */
  function Prefix(s: string, n: nat): string {
    if n <= |s| then s[..n] else s
  }

  /** The first two switches of generate_shortname_callback: the field the
      placeholder names, upper-, lower- or title-cased by its modifier. */
  function Cased(p: Token, fullname: string, idnumber: string, ops: TextOps): string
    requires p.Placeholder?
  {
    var repl := if p.field == FullnameLetter then fullname else idnumber;
    if p.modifier == Some('+') then ops.upper(repl)
    else if p.modifier == Some('-') then ops.lower(repl)
    else if p.modifier == Some('~') then ops.title(repl)
    else repl
  }

  /** generate_shortname_callback for one placeholder. The captured digit group
      holds the LAST digit of the run, and "0" counts as empty, so `%0f` and `%10f`
      do not truncate and `%12f` keeps two characters. */
  function Replacement(p: Token, fullname: string, idnumber: string, ops: TextOps): (r: string)
    requires p.Placeholder?
    ensures r <= Cased(p, fullname, idnumber, ops)
  {
    var cased := Cased(p, fullname, idnumber, ops);
    var group := if p.digits == [] then "" else [p.digits[|p.digits| - 1]];
    if !IsEmpty(group) then Prefix(cased, DigitValue(group[0])) else cased
  }

  function Render(toks: seq<Token>, fullname: string, idnumber: string, ops: TextOps): string
    decreases |toks|
  {
    if toks == [] then ""
    else
      var head := match toks[0]
        case Literal(c) => [c]
        case Placeholder(_, _, _) => Replacement(toks[0], fullname, idnumber, ops);
      head + Render(toks[1..], fullname, idnumber, ops)
  }

  /** The pattern `(?<!%)%([+~-])?(\d)*([fi])` occurs at position i of t and reads
      the placeholder p there: no `%` just before i, then p's own text. */
  predicate PatternAt(t: string, i: nat, p: Token) {
    p.Placeholder?
    && (p.modifier.Some? ==> IsModifier(p.modifier.value)) && AllDigits(p.digits)
    && i + Width(p) <= |t| && t[i..i + Width(p)] == Source(p)
    && (i == 0 || t[i - 1] != '%')
  }

  /** Every occurrence of the pattern is matched, with its modifier, its whole
      digit run and its letter: the greedy first attempt never misses one. */
  lemma MatchAtComplete(t: string, i: nat, p: Token)
    requires PatternAt(t, i, p)
    ensures i < |t| && MatchAt(t, i) == Some(p)
  {
    var mod := if p.modifier.Some? then [p.modifier.value] else "";
    var d := p.digits;
    var src := Source(p);
    var j := i + 1 + |mod|;
    var k := j + |d|;
    assert src == "%" + mod + d + [Letter(p.field)];
    assert t[i] == src[0] == '%';
    assert t[i + 1] == src[1];
    if p.modifier.None? && d != [] {
      assert src[1] == d[0];
    }
    forall x | 0 <= x < |d| ensures t[j + x] == d[x] {
      assert t[j + x] == src[1 + |mod| + x];
    }
    assert t[j..k] == d;
    assert t[k] == src[|src| - 1] == Letter(p.field);
    DigitsEndOver(t, j, d);
  }

  /** The pattern occurs at i with placeholder p exactly when MatchAt returns p. */
  lemma MatchAtExact(t: string, i: nat, p: Token)
    requires i < |t|
    ensures MatchAt(t, i) == Some(p) <==> PatternAt(t, i, p)
  {
    if MatchAt(t, i) == Some(p) {
      MatchAtSource(t, i);
    }
    if PatternAt(t, i, p) {
      MatchAtComplete(t, i, p);
    }
  }

  /** Only the first character of a placeholder's text is a `%`. */
  lemma PercentOnlyFirst(p: Token, x: nat)
    requires p.Placeholder? && (p.modifier.Some? ==> IsModifier(p.modifier.value)) && AllDigits(p.digits)
    requires 1 <= x < |Source(p)|
    ensures Source(p)[x] != '%'
  {
    var mod := if p.modifier.Some? then [p.modifier.value] else "";
    var src := Source(p);
    assert src == "%" + mod + p.digits + [Letter(p.field)];
    if x <= |mod| {
      assert src[x] == mod[0];
    } else if x < 1 + |mod| + |p.digits| {
      assert src[x] == p.digits[x - 1 - |mod|];
    }
  }

  /** One token of the scan from j, read before a later `%` at i: it ends at or
      before i. */
  lemma ScanStep(t: string, j: nat, i: nat) returns (e: nat, head: Token)
    requires j < i < |t| && t[i] == '%'
    ensures j < e <= i && Tokens(t, j) == [head] + Tokens(t, e) && Source(head) == t[j..e]
  {
    if MatchAt(t, j).Some? {
      head := MatchAt(t, j).value;
      e := j + Width(head);
      MatchAtSource(t, j);
      if e > i {
        assert t[i] == Source(head)[i - j];
        PercentOnlyFirst(head, i - j);
        assert false;
      }
    } else {
      e := j + 1;
      head := Literal(t[j]);
      assert t[j..e] == [t[j]];
    }
  }

  lemma SliceJoin(t: string, j: nat, e: nat, i: nat)
    requires j <= e <= i <= |t|
    ensures t[j..i] == t[j..e] + t[e..i]
  {
  }

  /** Putting one token in front of a token list shifts its suffixes and
      prefixes by one. */
  lemma ConsShift(toks: seq<Token>, head: Token, rest: seq<Token>, k: nat)
    requires toks == [head] + rest && k <= |rest|
    ensures toks[k + 1..] == rest[k..]
    ensures Sources(toks[..k + 1]) == Source(head) + Sources(rest[..k])
  {
    assert toks[..k + 1] == [head] + rest[..k];
    SourcesCons(head, rest[..k]);
  }

  /** The scan from j stops at every later `%`: its first k tokens read exactly
      the text from j up to it, and the scan from that `%` is what follows them. */
  lemma {:induction false} ScanReaches(t: string, j: nat, i: nat) returns (k: nat)
    requires j <= i < |t| && t[i] == '%'
    ensures k <= |Tokens(t, j)| && Tokens(t, j)[k..] == Tokens(t, i)
    ensures Sources(Tokens(t, j)[..k]) == t[j..i]
    decreases i - j
  {
    if j == i {
      k := 0;
      assert Tokens(t, j)[0..] == Tokens(t, j);
    } else {
      var e, head := ScanStep(t, j, i);
      var k' := ScanReaches(t, e, i);
      k := k' + 1;
      ConsShift(Tokens(t, j), head, Tokens(t, e), k');
      SliceJoin(t, j, e, i);
    }
  }

  /** The str_replace_callback call of generate_shortname, read as a PCRE
      replace-with-callback over the whole template, with the callback bound to
      the course's full name and idnumber. */
  function Expand(t: string, fullname: string, idnumber: string, ops: TextOps): string {
    Render(Tokens(t, 0), fullname, idnumber, ops)
  }

  /** `empty($s) && !is_numeric($s)` on a string: empty() holds for "" and "0",
      and "0" is numeric. */
  predicate EmptyNonNumeric(s: string) {
    IsEmpty(s) && s != "0"
  }

  /** generate_shortname: null (None) for an empty template, the template itself
      when it has no `%`, otherwise the cleaned expansion, or null when that is
      empty. A missing full name or idnumber reads as "". */
  function GenerateShortname(data: map<string, string>, template: string, ops: TextOps): (r: Option<string>)
    ensures r.Some? ==> r.value != ""
    ensures '%' !in template ==> r == (if template == "" then None else Some(template))
  {
    if EmptyNonNumeric(template) then None
    else if '%' !in template then Some(template)
    else
      var result := ops.clean(Expand(template, Field(data, "fullname"), Field(data, "idnumber"), ops));
      if EmptyNonNumeric(result) then None else Some(result)
  }

  /** Reading the tokens back gives the template: the scan loses and invents no
      text, so every character is either kept literally or part of exactly one
      placeholder. */
  lemma {:induction false} TokensSource(t: string, i: nat)
    requires i <= |t|
    ensures Sources(Tokens(t, i)) == t[i..]
    decreases |t| - i, 1
  {
    if i < |t| {
      if MatchAt(t, i).Some? {
        TokensSourceMatch(t, i);
      } else {
        TokensSourceLiteral(t, i);
      }
    }
  }

  lemma {:induction false} TokensSourceMatch(t: string, i: nat)
    requires i < |t| && MatchAt(t, i).Some?
    ensures Sources(Tokens(t, i)) == t[i..]
    decreases |t| - i, 0
  {
    var e := i + Width(MatchAt(t, i).value);
    TokensStepMatch(t, i, e);
    TokensSource(t, e);
    SliceSplit(t, i, e);
  }

  lemma {:induction false} TokensSourceLiteral(t: string, i: nat)
    requires i < |t| && MatchAt(t, i).None?
    ensures Sources(Tokens(t, i)) == t[i..]
    decreases |t| - i, 0
  {
    TokensStepLiteral(t, i);
    TokensSource(t, i + 1);
    SourcesCons(Literal(t[i]), Tokens(t, i + 1));
    SliceSplit(t, i, i + 1);
    assert t[i..i + 1] == [t[i]];
  }

  lemma TokensStepMatch(t: string, i: nat, e: nat)
    requires i < |t| && MatchAt(t, i).Some? && e == i + Width(MatchAt(t, i).value)
    ensures e <= |t| && Sources(Tokens(t, i)) == t[i..e] + Sources(Tokens(t, e))
  {
    var p := MatchAt(t, i).value;
    MatchAtSource(t, i);
    assert Tokens(t, i) == [p] + Tokens(t, e);
    SourcesCons(p, Tokens(t, e));
  }

  lemma TokensStepLiteral(t: string, i: nat)
    requires i < |t| && MatchAt(t, i).None?
    ensures Tokens(t, i) == [Literal(t[i])] + Tokens(t, i + 1)
  {
  }

  lemma SliceSplit(t: string, i: nat, e: nat)
    requires i <= e <= |t|
    ensures t[i..] == t[i..e] + t[e..]
  {
  }

  lemma SourcesCons(tok: Token, rest: seq<Token>)
    ensures Sources([tok] + rest) == Source(tok) + Sources(rest)
  {
    assert ([tok] + rest)[1..] == rest;
  }

  /** Without a `%` there is no placeholder, and expansion is the identity. */
  lemma {:induction false} RenderWithoutPercent(t: string, i: nat, fullname: string, idnumber: string, ops: TextOps)
    requires i <= |t| && '%' !in t[i..]
    ensures Render(Tokens(t, i), fullname, idnumber, ops) == t[i..]
    decreases |t| - i
  {
    if i < |t| {
      assert t[i] == t[i..][0];
      assert MatchAt(t, i) == None;
      assert t[i + 1..] == t[i..][1..];
      RenderWithoutPercent(t, i + 1, fullname, idnumber, ops);
      assert Tokens(t, i)[1..] == Tokens(t, i + 1);
      assert t[i..] == [t[i]] + t[i + 1..];
    }
  }

  lemma ExpandWithoutPercent(t: string, fullname: string, idnumber: string, ops: TextOps)
    requires '%' !in t
    ensures Expand(t, fullname, idnumber, ops) == t
  {
    assert t[0..] == t;
    RenderWithoutPercent(t, 0, fullname, idnumber, ops);
  }

  lemma {:induction false} RenderAppend(a: seq<Token>, b: seq<Token>, fullname: string, idnumber: string, ops: TextOps)
    ensures Render(a + b, fullname, idnumber, ops) == Render(a, fullname, idnumber, ops) + Render(b, fullname, idnumber, ops)
    decreases |a|
  {
    if a == [] {
      assert a + b == b;
    } else {
      assert (a + b)[0] == a[0] && (a + b)[1..] == a[1..] + b;
      RenderAppend(a[1..], b, fullname, idnumber, ops);
    }
  }

  /** Every occurrence of the pattern in the template is matched by the scan: the
      k-th token is its placeholder, the tokens before it spell the text before
      it, and the scan resumes right after it. */
  lemma PlaceholderScanned(t: string, i: nat, p: Token) returns (k: nat)
    requires PatternAt(t, i, p)
    ensures k < |Tokens(t, 0)| && Tokens(t, 0)[k] == p
    ensures Sources(Tokens(t, 0)[..k]) == t[..i]
    ensures Tokens(t, 0)[k + 1..] == Tokens(t, i + Width(p))
  {
    MatchAtComplete(t, i, p);
    k := ScanReaches(t, 0, i);
    var toks := Tokens(t, 0);
    assert toks[k..] == [p] + Tokens(t, i + Width(p));
    assert toks[k] == toks[k..][0];
    assert toks[k + 1..] == toks[k..][1..];
    assert t[0..i] == t[..i];
  }

  /** Rendering cut at the k-th token, a placeholder: the text before it, the
      callback's answer for it, the text after it. */
  lemma RenderAround(toks: seq<Token>, k: nat, fullname: string, idnumber: string, ops: TextOps)
    requires k < |toks| && toks[k].Placeholder?
    ensures Render(toks, fullname, idnumber, ops)
         == Render(toks[..k], fullname, idnumber, ops) + Replacement(toks[k], fullname, idnumber, ops)
            + Render(toks[k + 1..], fullname, idnumber, ops)
  {
    var tail := toks[k..];
    assert toks == toks[..k] + tail;
    RenderAppend(toks[..k], tail, fullname, idnumber, ops);
    assert tail[0] == toks[k] && tail[1..] == toks[k + 1..];
  }

  /** Every occurrence of the pattern in the template is replaced by the
      callback's answer for it, between the rendering of the text before it and
      the rendering of the scan resumed after it. */
  lemma PlaceholderReplaced(t: string, i: nat, p: Token, fullname: string, idnumber: string, ops: TextOps)
    returns (k: nat)
    requires PatternAt(t, i, p)
    ensures k < |Tokens(t, 0)| && Tokens(t, 0)[k] == p && Sources(Tokens(t, 0)[..k]) == t[..i]
    ensures Expand(t, fullname, idnumber, ops)
         == Render(Tokens(t, 0)[..k], fullname, idnumber, ops) + Replacement(p, fullname, idnumber, ops)
            + Render(Tokens(t, i + Width(p)), fullname, idnumber, ops)
  {
    k := PlaceholderScanned(t, i, p);
    RenderAround(Tokens(t, 0), k, fullname, idnumber, ops);
  }

  /** The replacement is the cased field cut to the last captured digit when that
      digit is 1 to 9, and the whole cased field otherwise. */
  lemma ReplacementTruncates(p: Token, fullname: string, idnumber: string, ops: TextOps)
    requires p.Placeholder?
    ensures var cased := Cased(p, fullname, idnumber, ops);
      var r := Replacement(p, fullname, idnumber, ops);
      r <= cased
      && (p.digits == [] || p.digits[|p.digits| - 1] == '0' ==> r == cased)
      && (p.digits != [] && p.digits[|p.digits| - 1] != '0' ==>
            |r| == if |cased| < DigitValue(p.digits[|p.digits| - 1]) then |cased|
                   else DigitValue(p.digits[|p.digits| - 1]))
  {
  }

  /** Identity case mapping and cleaning, to state examples exactly. */
  const Plain := TextOps(s => s, s => s, s => s, s => s)

  /** `%%f` is not a placeholder: the second `%` follows a `%`, and the first is
      not followed by a modifier, a digit or a field letter. */
  lemma EscapedPercentIsLiteral(fullname: string, idnumber: string, ops: TextOps)
    ensures Expand("%%f", fullname, idnumber, ops) == "%%f"
  {
    var t := "%%f";
    assert DigitsEnd(t, 1) == 1;
    assert MatchAt(t, 0) == None;
    assert MatchAt(t, 1) == None;
    assert MatchAt(t, 2) == None;
    assert Tokens(t, 2) == [Literal('f')] + Tokens(t, 3);
    assert Tokens(t, 1) == [Literal('%')] + Tokens(t, 2);
    assert Tokens(t, 0) == [Literal('%'), Literal('%'), Literal('f')];
    var toks := Tokens(t, 0);
    assert toks[1..] == [Literal('%'), Literal('f')];
    assert toks[1..][1..] == [Literal('f')];
    assert Render(toks[1..][1..], fullname, idnumber, ops) == "f";
    assert Render(toks[1..], fullname, idnumber, ops) == "%f";
  }

  /** `%12f` keeps only two characters of the full name: the repeated group
      captures the last digit, not the number. */
  lemma LastDigitTruncates()
    ensures GenerateShortname(map["fullname" := "Chemistry"], "%12f", Plain) == Some("Ch")
  {
    var t := "%12f";
    assert DigitsEnd(t, 3) == 3;
    assert DigitsEnd(t, 2) == 3;
    assert DigitsEnd(t, 1) == 3;
    assert t[1..3] == "12";
    var p := Placeholder(None, "12", FullnameLetter);
    assert MatchAt(t, 0) == Some(p);
    assert Tokens(t, 0) == [p] + Tokens(t, 4);
    assert Replacement(p, "Chemistry", "", Plain) == "Ch";
    assert Expand(t, "Chemistry", "", Plain) == "Ch";
  }

  /** Two placeholders with modifiers, literal text between them and a missing
      idnumber, which reads as "". */
  lemma TwoPlaceholders(fullname: string, ops: TextOps)
    ensures Expand("%+f-%~i", fullname, "", ops) == ops.upper(fullname) + "-" + ops.title("")
  {
    var t := "%+f-%~i";
    var p := Placeholder(Some('+'), "", FullnameLetter);
    var q := Placeholder(Some('~'), "", IdnumberLetter);
    assert DigitsEnd(t, 2) == 2;
    assert MatchAt(t, 0) == Some(p);
    assert MatchAt(t, 3) == None;
    assert DigitsEnd(t, 6) == 6;
    assert MatchAt(t, 4) == Some(q);
    assert Tokens(t, 4) == [q] + Tokens(t, 7);
    assert Tokens(t, 3) == [Literal('-'), q];
    assert Tokens(t, 0) == [p, Literal('-'), q];
    var toks := Tokens(t, 0);
    assert toks[1..] == [Literal('-'), q];
    assert toks[1..][1..] == [q];
    assert Render(toks[1..][1..], fullname, "", ops) == ops.title("");
    assert Render(toks[1..], fullname, "", ops) == "-" + ops.title("");
  }
}
