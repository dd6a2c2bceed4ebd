/** increment_idnumber and increment_shortname: make a name unique by bumping
    the number at its end. */
module Increment {
  import opened PhpText

  /** Index where the maximal run of trailing decimal digits of s begins
      (|s| when s does not end in a digit). Its properties are in TrailingDigits. */
  function TrailingDigitsStart(s: string): (k: nat)
    ensures k <= |s|
    decreases |s|
  {
    if s == [] || !IsDigit(s[|s| - 1]) then |s| else TrailingDigitsStart(s[..|s| - 1])
  }

  /** The run found is all digits and maximal. */
  lemma {:induction false} TrailingDigits(s: string)
    ensures var k := TrailingDigitsStart(s);
      AllDigits(s[k..]) && (k > 0 ==> !IsDigit(s[k - 1]))
    decreases |s|
  {
    if s != [] && IsDigit(s[|s| - 1]) {
      var k := TrailingDigitsStart(s[..|s| - 1]);
      TrailingDigits(s[..|s| - 1]);
      assert s[k..] == s[..|s| - 1][k..] + [s[|s| - 1]];
    }
  }

  /** The trailing digit run of prefix + digits is exactly digits when prefix
      does not end in a digit. */
  lemma {:induction false} TrailingDigitsOfSuffix(prefix: string, digits: string)
    requires prefix == [] || !IsDigit(prefix[|prefix| - 1])
    requires AllDigits(digits)
    ensures TrailingDigitsStart(prefix + digits) == |prefix|
    decreases |digits|
  {
    var s := prefix + digits;
    if digits == [] {
      assert s == prefix;
    } else {
      assert s[|s| - 1] == digits[|digits| - 1];
      assert s[..|s| - 1] == prefix + digits[..|digits| - 1];
      TrailingDigitsOfSuffix(prefix, digits[..|digits| - 1]);
    }
  }

  /** The index just after the last "\n" of t (0 when t has none): the first
      place from which `.*?` can reach the end of t, since `.` does not match "\n". */
  function LineStart(t: string): (p: nat)
    ensures p <= |t|
    decreases |t|
  {
    if t == [] then 0
    else if t[|t| - 1] == '\n' then |t|
    else LineStart(t[..|t| - 1])
  }

  /** No "\n" after the line start, and a "\n" just before it. */
  lemma {:induction false} LineStartProps(t: string)
    ensures var p := LineStart(t);
      (forall i :: p <= i < |t| ==> t[i] != '\n') && (p > 0 ==> t[p - 1] == '\n')
    decreases |t|
  {
    if t != [] && t[|t| - 1] != '\n' {
      LineStartProps(t[..|t| - 1]);
    }
  }

  /** Whether `/(.*?)([0-9]+)$/` matches s: the text before the end anchor ends in a digit. */
  predicate HasTrailingNumber(s: string) {
    var e := StripFinalNewline(s);
    TrailingDigitsStart(e) < |e|
  }

  /** One step of both loops. Without a match "_2" is appended to the whole
      string. With a match, group 1 is the part of the line before the maximal
      trailing digit run (the leftmost match starts just after the last "\n"
      before the run) and group 2 is the run; the step yields group 1 followed
      by the decimal text of the run's integer value plus one, so text before
      that line, leading zeros of the run and a final "\n" are dropped. */
  function Increment(s: string): (r: string)
    ensures r != [] && IsDigit(r[|r| - 1])
  {
    var e := StripFinalNewline(s);
    var k := TrailingDigitsStart(e);
    if k == |e| then s + "_2"
    else
      var p := LineStart(e[..k]);
      e[p..k] + Dec(Val(e[k..]) + 1)
  }

  /** `tried` are the names a loop looked up and found taken, in order, starting
      from `first`; `last` is the name after them: each name is `step` applied
      to the one before it. The loops below use it with step = Increment. */
  ghost predicate IsChain(step: string -> string, first: string, tried: seq<string>, last: string)
    decreases |tried|
  {
    if tried == [] then last == first
    else IsChain(step, first, tried[..|tried| - 1], tried[|tried| - 1]) && last == step(tried[|tried| - 1])
  }

  /** One more taken name extends the chain by one step. */
  lemma ChainExtend(step: string -> string, first: string, tried: seq<string>, last: string)
    requires IsChain(step, first, tried, last)
    ensures IsChain(step, first, tried + [last], step(last))
  {
    assert (tried + [last])[..|tried|] == tried;
  }

  /** The chain read index by index: it starts at `first`, every name is the
      step of the one before, and `last` is the step of the final tried name. */
  lemma {:induction false} ChainSteps(step: string -> string, first: string, tried: seq<string>, last: string)
    requires IsChain(step, first, tried, last)
    ensures tried != [] ==> tried[0] == first && last == step(tried[|tried| - 1])
    ensures forall j :: 0 < j < |tried| ==> tried[j] == step(tried[j - 1])
    decreases |tried|
  {
    if tried != [] {
      var init := tried[..|tried| - 1];
      ChainSteps(step, first, init, tried[|tried| - 1]);
      forall j | 0 < j < |tried| ensures tried[j] == step(tried[j - 1]) {
        if j < |tried| - 1 {
          assert tried[j] == init[j] && tried[j - 1] == init[j - 1];
        }
      }
    }
  }

  /** A prefix that the number of a name in normal form follows: no "\n" and no
      digit at its end. */
  predicate Plain(prefix: string) {
    (forall i :: 0 <= i < |prefix| ==> prefix[i] != '\n')
    && (prefix == [] || !IsDigit(prefix[|prefix| - 1]))
  }

  /** Once a name is a plain prefix followed by the decimal text of m, a step
      gives the same prefix followed by m + 1. */
  lemma NormalStep(prefix: string, m: nat)
    requires Plain(prefix)
    ensures Increment(prefix + Dec(m)) == prefix + Dec(m + 1)
  {
    var s := prefix + Dec(m);
    var d := Dec(m);
    assert s[|s| - 1] == d[|d| - 1];
    assert StripFinalNewline(s) == s;
    TrailingDigitsOfSuffix(prefix, d);
    assert s[..|prefix|] == prefix && s[|prefix|..] == d;
    LineStartProps(prefix);
    ValDec(m);
  }

  /** After a line break (or at the start) followed by text without one, the
      line starts right after the break. */
  lemma {:induction false} LineStartAfter(x: string, y: string)
    requires x == [] || x[|x| - 1] == '\n'
    requires forall i :: 0 <= i < |y| ==> y[i] != '\n'
    ensures LineStart(x + y) == |x|
    decreases |y|
  {
    var s := x + y;
    if y == [] {
      assert s == x;
    } else {
      assert s[|s| - 1] == y[|y| - 1];
      assert s[..|s| - 1] == x + y[..|y| - 1];
      LineStartAfter(x, y[..|y| - 1]);
    }
  }

  /** Whatever digit run a name's last line ends in (leading zeros included),
      a step keeps the part of that line before the run and replaces the run by
      the decimal text of its value plus one; earlier lines and one final "\n"
      are dropped. */
  lemma StepAnyRun(before: string, prefix: string, digits: string, tail: string)
    requires before == [] || before[|before| - 1] == '\n'
    requires Plain(prefix) && digits != [] && AllDigits(digits)
    requires tail == "" || tail == "\n"
    ensures Increment(before + prefix + digits + tail) == prefix + Dec(Val(digits) + 1)
  {
    var line := before + prefix;
    var e := line + digits;
    var s := e + tail;
    assert StripFinalNewline(s) == e by {
      if tail == "" {
        assert s == e;
      } else {
        assert s[..|s| - 1] == e;
      }
    }
    assert line == [] || !IsDigit(line[|line| - 1]) by {
      if prefix != [] {
        assert line[|line| - 1] == prefix[|prefix| - 1];
      } else if before != [] {
        assert line[|line| - 1] == '\n';
      }
    }
    TrailingDigitsOfSuffix(line, digits);
    assert e[..|line|] == line && e[|line|..] == digits;
    LineStartAfter(before, prefix);
    assert e[|before|..|line|] == prefix;
    IncrementParts(s, e, |line|, |before|, prefix, digits);
  }

  /** Increment read through its parts: the end the anchor sees, the start of the
      trailing run and the start of its line. */
  lemma IncrementParts(s: string, e: string, k: nat, p: nat, prefix: string, digits: string)
    requires StripFinalNewline(s) == e && TrailingDigitsStart(e) == k < |e|
    requires LineStart(e[..k]) == p <= k && e[p..k] == prefix && e[k..] == digits
    ensures Increment(s) == prefix + Dec(Val(digits) + 1)
  {
  }

  /** A name whose end holds a number reaches normal form in one step. */
  lemma Normalizes(s: string) returns (prefix: string, m: nat)
    requires HasTrailingNumber(s)
    ensures Plain(prefix) && Increment(s) == prefix + Dec(m)
  {
    var e := StripFinalNewline(s);
    var k := TrailingDigitsStart(e);
    var p := LineStart(e[..k]);
    TrailingDigits(e);
    LineStartProps(e[..k]);
    prefix := e[p..k];
    m := Val(e[k..]) + 1;
    forall i | 0 <= i < |prefix| ensures prefix[i] != '\n' {
      assert prefix[i] == e[..k][p + i];
    }
    if prefix != [] {
      assert prefix[|prefix| - 1] == e[k - 1];
    }
  }

  /** A name without a number at its end gets "_2" and so ends in a number. */
  lemma AppendGivesNumber(s: string)
    requires !HasTrailingNumber(s)
    ensures Increment(s) == s + "_2"
    ensures HasTrailingNumber(Increment(s))
  {
    var t := s + "_2";
    assert StripFinalNewline(t) == t;
    assert t[..|t| - 1] == s + "_";
    assert TrailingDigitsStart(t) == |t| - 1 by {
      assert TrailingDigitsStart(t[..|t| - 1]) == |t| - 1;
    }
  }

  /** The longest name of a finite set. */
  ghost function MaxLen(names: set<string>): (n: nat)
    ensures forall x :: x in names ==> |x| <= n
    decreases |names|
  {
    if names == {} then 0
    else
      var x :| x in names;
      var rest := MaxLen(names - {x});
      if |x| > rest then |x| else rest
  }

  /** A name in normal form that is in the set has a number below 10^MaxLen. */
  lemma NumberBound(prefix: string, m: nat, names: set<string>)
    requires prefix + Dec(m) in names
    ensures m < Pow10(MaxLen(names))
  {
    DecLengthBound(m, MaxLen(names));
  }

  /** The progress measure of both loops: a name first reaches normal form
      (phase 2 to 1 to 0, at most two steps), then its number grows by one per
      step while staying below 10^MaxLen(names) as long as the name is taken. */
  lemma Advance(r: string, phase: nat, prefix: string, m: nat, names: set<string>)
    returns (phase': nat, prefix': string, m': nat)
    requires r in names && phase <= 2
    requires phase == 1 ==> HasTrailingNumber(r)
    requires phase == 0 ==> Plain(prefix) && r == prefix + Dec(m)
    ensures phase' <= 1
    ensures phase' == 1 ==> HasTrailingNumber(Increment(r))
    ensures phase' == 0 ==> Plain(prefix') && Increment(r) == prefix' + Dec(m')
    ensures phase' < phase || (phase' == 0 && phase == 0 && m < m' <= Pow10(MaxLen(names)))
  {
    if phase == 0 {
      NumberBound(prefix, m, names);
      NormalStep(prefix, m);
      phase', prefix', m' := 0, prefix, m + 1;
    } else if HasTrailingNumber(r) {
      prefix', m' := Normalizes(r);
      phase' := 0;
    } else {
      AppendGivesNumber(r);
      phase', prefix', m' := 1, prefix, m;
    }
  }

  /** increment_idnumber: step while the name is taken. The answer is the first
      name of the sequence idnumber, Increment(idnumber), ... that is not in
      `existing`, and `tried` lists the taken names before it; in particular an
      unused idnumber comes back unchanged. */
  method IncrementIdnumber(idnumber: string, existing: set<string>) returns (r: string, ghost tried: seq<string>)
    ensures r !in existing
    ensures IsChain(Increment, idnumber, tried, r)
    ensures forall x :: x in tried ==> x in existing
    ensures idnumber !in existing ==> r == idnumber
  {
    r := idnumber;
    tried := [];
    ghost var phase: nat := 2;
    ghost var prefix: string := [];
    ghost var m: nat := 0;
    ghost var bound := Pow10(MaxLen(existing));
    while r in existing
      invariant IsChain(Increment, idnumber, tried, r)
      invariant tried != [] ==> tried[0] == idnumber
      invariant forall x :: x in tried ==> x in existing
      invariant phase <= 2
      invariant phase == 1 ==> HasTrailingNumber(r)
      invariant phase == 0 ==> Plain(prefix) && r == prefix + Dec(m)
      decreases phase, bound - m
    {
      phase, prefix, m := Advance(r, phase, prefix, m, existing);
      ChainExtend(Increment, idnumber, tried, r);
      tried := tried + [r];
      r := Increment(r);
    }
  }

  /** increment_shortname: the do-while form, so the name always changes at
      least once. The answer is the first of Increment(shortname),
      Increment(Increment(shortname)), ... that is not in `existing`, and
      `tried` lists the taken names before it. */
  method IncrementShortname(shortname: string, existing: set<string>) returns (r: string, ghost tried: seq<string>)
    ensures r !in existing
    ensures IsChain(Increment, Increment(shortname), tried, r)
    ensures forall x :: x in tried ==> x in existing
  {
    ghost var phase: nat := 2;
    ghost var prefix: string := [];
    ghost var m: nat := 0;
    if HasTrailingNumber(shortname) {
      prefix, m := Normalizes(shortname);
      phase := 0;
    } else {
      AppendGivesNumber(shortname);
      phase := 1;
    }
    r := Increment(shortname);
    tried := [];
    ghost var bound := Pow10(MaxLen(existing));
    while r in existing
      invariant IsChain(Increment, Increment(shortname), tried, r)
      invariant forall x :: x in tried ==> x in existing
      invariant phase <= 1
      invariant phase == 1 ==> HasTrailingNumber(r)
      invariant phase == 0 ==> Plain(prefix) && r == prefix + Dec(m)
      decreases phase, bound - m
    {
      phase, prefix, m := Advance(r, phase, prefix, m, existing);
      ChainExtend(Increment, Increment(shortname), tried, r);
      tried := tried + [r];
      r := Increment(r);
    }
  }
}
