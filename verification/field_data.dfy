/** get_enrolment_data and get_role_names: the CSV columns named `enrolment_<n>`,
    `enrolment_<n>_<option>` and `role_<shortname>` turned into enrolment methods
    with their options and into role renamings. The row is a PHP array, kept here
    as a sequence of (column, value) pairs in column order; the installed
    enrolment plugins and the role shortname -> id map are parameters. */
module FieldData {
  import opened PhpText

  /** A PHP array with string keys, in insertion order. */
  type Assoc<V> = seq<(string, V)>

  function Keys<V>(m: Assoc<V>): set<string> {
    set i | 0 <= i < |m| :: m[i].0
  }

  predicate DistinctKeys<V>(m: Assoc<V>) {
    forall i, j :: 0 <= i < j < |m| ==> m[i].0 != m[j].0
  }

  /** `$m[$k]`, when it is set. */
  function Lookup<V>(m: Assoc<V>, k: string): Option<V>
    decreases |m|
  {
    if m == [] then None
    else if m[0].0 == k then Some(m[0].1)
    else Lookup(m[1..], k)
  }

  /** `$m[$k] = $v`: an existing key keeps its place, a new key goes last. */
  function Put<V>(m: Assoc<V>, k: string, v: V): Assoc<V>
    decreases |m|
  {
    if m == [] then [(k, v)]
    else if m[0].0 == k then [(k, v)] + m[1..]
    else [m[0]] + Put(m[1..], k, v)
  }

  lemma {:induction false} LookupKeys<V>(m: Assoc<V>, k: string)
    ensures Lookup(m, k).Some? <==> k in Keys(m)
    decreases |m|
  {
    if m != [] && m[0].0 != k {
      LookupKeys(m[1..], k);
      if k in Keys(m) {
        var i :| 0 <= i < |m| && m[i].0 == k;
        assert m[1..][i - 1] == m[i];
      }
      if k in Keys(m[1..]) {
        var i :| 0 <= i < |m[1..]| && m[1..][i].0 == k;
        assert m[i + 1] == m[1..][i];
      }
    } else if m != [] {
      assert m[0].0 in Keys(m);
    }
  }

  /** After `$m[$k] = $v`, `$m[$k]` is v and every other entry reads as before. */
  lemma {:induction false} PutLookup<V>(m: Assoc<V>, k: string, v: V, k2: string)
    ensures Lookup(Put(m, k, v), k2) == if k2 == k then Some(v) else Lookup(m, k2)
    decreases |m|
  {
    if m != [] && m[0].0 != k {
      PutLookup(m[1..], k, v, k2);
      assert Put(m, k, v)[1..] == Put(m[1..], k, v);
    } else if m != [] {
      assert Put(m, k, v)[1..] == m[1..];
    }
  }

  /** Assignment keeps the order: overwriting leaves every key in its place, and a
      new key is appended. */
  lemma {:induction false} PutOrder<V>(m: Assoc<V>, k: string, v: V)
    ensures k in Keys(m) ==> |Put(m, k, v)| == |m| && forall i :: 0 <= i < |m| ==> Put(m, k, v)[i].0 == m[i].0
    ensures k !in Keys(m) ==> Put(m, k, v) == m + [(k, v)]
    decreases |m|
  {
    if m != [] && m[0].0 != k {
      PutOrder(m[1..], k, v);
      var p := Put(m, k, v);
      assert p == [m[0]] + Put(m[1..], k, v);
      if k in Keys(m) {
        var i :| 0 <= i < |m| && m[i].0 == k;
        assert m[1..][i - 1] == m[i];
      } else {
        assert m == [m[0]] + m[1..];
      }
    } else if m != [] {
      assert m[0].0 in Keys(m);
    }
  }

  lemma PutKeys<V>(m: Assoc<V>, k: string, v: V)
    ensures Keys(Put(m, k, v)) == Keys(m) + {k}
    ensures DistinctKeys(m) ==> DistinctKeys(Put(m, k, v))
  {
    PutOrder(m, k, v);
    var p := Put(m, k, v);
    if k in Keys(m) {
      forall x | x in Keys(p) ensures x in Keys(m) {
        var i :| 0 <= i < |p| && p[i].0 == x;
        assert m[i].0 == x;
      }
      forall x | x in Keys(m) ensures x in Keys(p) {
        var i :| 0 <= i < |m| && m[i].0 == x;
        assert p[i].0 == x;
      }
    } else {
      forall x | x in Keys(p) ensures x in Keys(m) + {k} {
        var i :| 0 <= i < |p| && p[i].0 == x;
        if i < |m| {
          assert m[i].0 == x;
        }
      }
      forall x | x in Keys(m) + {k} ensures x in Keys(p) {
        if x == k {
          assert p[|m|].0 == k;
        } else {
          var i :| 0 <= i < |m| && m[i].0 == x;
          assert p[i].0 == x;
        }
      }
      if DistinctKeys(m) {
        forall i, j | 0 <= i < j < |p| ensures p[i].0 != p[j].0 {
          if j == |m| {
            assert p[i].0 == m[i].0;
            assert m[i].0 in Keys(m);
          }
        }
      }
    }
  }

  // ---------------------------------------------------------------------------
  // Column names

  const EnrolPrefix := "enrolment_"
  const RolePrefix := "role_"

  /** What `^enrolment_(\d+)(_(.+))?$` captures in a column name: the method's
      number (group 1) and the option name (group 3, "" when the group is unset). */
  datatype EnrolColumn = EnrolColumn(index: string, option: string)

  /** `(.*)$` at the end of a pattern: `.` stops at a newline and `$` also
      matches before one final newline, so the text matches when it has no
      newline but possibly a last one, and the group is the text before it. */
  function LineBody(s: string): Option<string> {
    var body := StripFinalNewline(s);
    if '\n' in body then None else Some(body)
  }

  /** `(_(.+))?$` on the text after the digits: Some("") when the group is
      skipped and the end follows, Some(option) when it matched, None otherwise. */
  function OptionGroup(after: string): Option<string> {
    if after == "" || after == "\n" then Some("")
    else if after != "" && after[0] == '_' && LineBody(after[1..]).Some? && LineBody(after[1..]).value != "" then
      LineBody(after[1..])
    else None
  }

  /** `(\d+)(_(.+))?$` on the text after the prefix. The digit run is greedy, and
      giving digits back never helps since only "_" or the end may follow. */
  function EnrolmentRest(rest: string): Option<EnrolColumn> {
    var k := DigitsEnd(rest, 0);
    if k == 0 then None
    else
      match OptionGroup(rest[k..])
      case Some(o) => Some(EnrolColumn(rest[..k], o))
      case None => None
  }

  /** preg_match of `^enrolment_(\d+)(_(.+))?$`. */
  function ParseEnrolment(field: string): Option<EnrolColumn> {
    if EnrolPrefix <= field then EnrolmentRest(field[|EnrolPrefix|..]) else None
  }

  /** preg_match of `^role_(.+)?$`: the shortname after the prefix, "" when the
      group is unset (the missing `$matches[1]` is null, which reads as the key ""). */
  function ParseRole(field: string): Option<string> {
    if RolePrefix <= field then LineBody(field[|RolePrefix|..]) else None
  }

  /** A newline-free text is matched with and without one final newline. */
  lemma LineBodyOf(b: string, tail: string)
    requires '\n' !in b && (tail == "" || tail == "\n")
    ensures LineBody(b + tail) == Some(b)
  {
    if tail == "" {
      assert b + tail == b;
      if b != [] {
        assert b[|b| - 1] in b;
      }
    } else {
      assert (b + tail)[..|b|] == b;
    }
  }

  lemma LineBodyShape(s: string)
    requires LineBody(s).Some?
    ensures '\n' !in LineBody(s).value
    ensures s == LineBody(s).value || s == LineBody(s).value + "\n"
  {
    if s != [] && s[|s| - 1] == '\n' {
      assert s == s[..|s| - 1] + "\n";
    }
  }

  /** The column name for a method number and an option ("" for the method). */
  function OptionSuffix(option: string): string {
    if option == "" then "" else "_" + option
  }

  /** The part of a column name after the prefix. */
  function RestName(c: EnrolColumn): string {
    c.index + OptionSuffix(c.option)
  }

  function EnrolName(c: EnrolColumn): string {
    EnrolPrefix + RestName(c)
  }

  predicate ValidEnrolColumn(c: EnrolColumn) {
    c.index != [] && AllDigits(c.index) && '\n' !in c.option
  }

  lemma OptionGroupOf(option: string, tail: string)
    requires '\n' !in option && (tail == "" || tail == "\n")
    ensures OptionGroup(OptionSuffix(option) + tail) == Some(option)
  {
    if option != "" {
      var after := OptionSuffix(option) + tail;
      assert after[1..] == option + tail;
      LineBodyOf(option, tail);
    } else {
      assert OptionSuffix(option) + tail == tail;
    }
  }

  lemma OptionGroupShape(after: string)
    requires OptionGroup(after).Some?
    ensures '\n' !in OptionGroup(after).value
    ensures after == OptionSuffix(OptionGroup(after).value) || after == OptionSuffix(OptionGroup(after).value) + "\n"
  {
    if !(after == "" || after == "\n") {
      LineBodyShape(after[1..]);
      assert after == "_" + after[1..];
    }
  }

  lemma EnrolmentRestOf(c: EnrolColumn, tail: string)
    requires ValidEnrolColumn(c) && (tail == "" || tail == "\n")
    ensures EnrolmentRest(RestName(c) + tail) == Some(c)
  {
    var d := c.index;
    var after := OptionSuffix(c.option) + tail;
    var rest := RestName(c) + tail;
    assert rest == d + after;
    assert rest[0..|d|] == d;
    assert rest[|d|..] == after;
    assert rest[..|d|] == d;
    OptionGroupOf(c.option, tail);
    assert OptionGroup(after) == Some(c.option);
    if after != [] {
      assert rest[|d|] == after[0];
      assert !IsDigit(after[0]);
    }
    DigitsEndOver(rest, 0, d);
  }

  lemma EnrolmentRestShape(rest: string)
    requires EnrolmentRest(rest).Some?
    ensures ValidEnrolColumn(EnrolmentRest(rest).value)
    ensures rest == RestName(EnrolmentRest(rest).value) || rest == RestName(EnrolmentRest(rest).value) + "\n"
  {
    var k := DigitsEnd(rest, 0);
    var after := rest[k..];
    var c := EnrolColumn(rest[..k], OptionGroup(after).value);
    assert EnrolmentRest(rest) == Some(c);
    DigitsEndRun(rest, 0);
    assert rest[..k] == rest[0..k];
    OptionGroupShape(after);
    assert ValidEnrolColumn(c);
    assert rest == rest[..k] + after;
    assert rest == RestName(c) || rest == RestName(c) + "\n";
  }

  /** Column names are read back exactly, also with the one trailing newline
      that `$` lets through. */
  lemma EnrolmentColumnNames(c: EnrolColumn, tail: string)
    requires ValidEnrolColumn(c) && (tail == "" || tail == "\n")
    ensures ParseEnrolment(EnrolName(c) + tail) == Some(c)
  {
    var rest := RestName(c) + tail;
    var f := EnrolName(c) + tail;
    assert f == EnrolPrefix + rest;
    assert f[|EnrolPrefix|..] == rest;
    EnrolmentRestOf(c, tail);
  }

  /** Conversely, a column the pattern accepts is one of those names, possibly
      followed by a single newline. */
  lemma EnrolmentColumnShape(field: string)
    requires ParseEnrolment(field).Some?
    ensures ValidEnrolColumn(ParseEnrolment(field).value)
    ensures field == EnrolName(ParseEnrolment(field).value) || field == EnrolName(ParseEnrolment(field).value) + "\n"
  {
    var rest := field[|EnrolPrefix|..];
    EnrolmentRestShape(rest);
    assert field == EnrolPrefix + rest;
  }

  /** Role columns are read back exactly, also with one trailing newline. */
  lemma RoleColumnNames(shortname: string, tail: string)
    requires '\n' !in shortname && (tail == "" || tail == "\n")
    ensures ParseRole(RolePrefix + shortname + tail) == Some(shortname)
  {
    var f := RolePrefix + shortname + tail;
    assert f[|RolePrefix|..] == shortname + tail;
    LineBodyOf(shortname, tail);
  }

  /** Conversely, an accepted role column is `role_` and the shortname, possibly
      followed by a single newline. */
  lemma RoleColumnShape(field: string)
    requires ParseRole(field).Some?
    ensures '\n' !in ParseRole(field).value
    ensures field == RolePrefix + ParseRole(field).value || field == RolePrefix + ParseRole(field).value + "\n"
  {
    var rest := field[|RolePrefix|..];
    LineBodyShape(rest);
    assert field == RolePrefix + rest;
  }

  // ---------------------------------------------------------------------------
  // get_enrolment_data

  /** A column of the row as the first loop sees it: what the pattern captured,
      when it matched, and the column's value. */
  type Column = (Option<EnrolColumn>, string)

  function EnrolColumns(data: Assoc<string>): (cols: seq<Column>)
    ensures |cols| == |data|
    ensures forall i :: 0 <= i < |data| ==> cols[i] == (ParseEnrolment(data[i].0), data[i].1)
  {
    seq(|data|, i requires 0 <= i < |data| => (ParseEnrolment(data[i].0), data[i].1))
  }

  /** `$enrolmethods` and `$enroloptions` after the first loop. */
  datatype EnrolTables = EnrolTables(methods: Assoc<string>, options: Assoc<Assoc<string>>)

  /** `$enroloptions[$key]`, or an empty array where PHP would create one. */
  function OptionsOf(options: Assoc<Assoc<string>>, key: string): Assoc<string> {
    match Lookup(options, key)
    case Some(o) => o
    case None => []
  }

  /** One column of the first loop. An option named "0" is empty() and so sets
      the method, as an unnamed one does. */
  function EnrolStep(t: EnrolTables, col: Column): EnrolTables {
    match col.0
    case None => t
    case Some(c) =>
      var options := if Lookup(t.options, c.index).Some? then t.options else Put(t.options, c.index, []);
      if IsEmpty(c.option) then EnrolTables(Put(t.methods, c.index, col.1), options)
      else EnrolTables(t.methods, Put(options, c.index, Put(OptionsOf(options, c.index), c.option, col.1)))
  }

  function CollectEnrolment(cols: seq<Column>): EnrolTables
    decreases |cols|
  {
    if cols == [] then EnrolTables([], [])
    else EnrolStep(CollectEnrolment(cols[..|cols| - 1]), cols[|cols| - 1])
  }

  /** The second loop: each method that names an installed plugin, with the
      options collected under its number; a later number naming the same plugin
      overwrites the options in place. */
  function CombineEnrolment(methods: Assoc<string>, options: Assoc<Assoc<string>>, plugins: set<string>): Assoc<Assoc<string>>
    decreases |methods|
  {
    if methods == [] then []
    else
      var r := CombineEnrolment(methods[..|methods| - 1], options, plugins);
      var (key, name) := methods[|methods| - 1];
      if name in plugins then Put(r, name, OptionsOf(options, key)) else r
  }

  function EnrolmentData(data: Assoc<string>, plugins: set<string>): Assoc<Assoc<string>> {
    var t := CollectEnrolment(EnrolColumns(data));
    CombineEnrolment(t.methods, t.options, plugins)
  }

  /** get_enrolment_data. */
  method GetEnrolmentData(data: Assoc<string>, plugins: set<string>) returns (r: Assoc<Assoc<string>>)
    ensures r == EnrolmentData(data, plugins)
  {
    ghost var cols := EnrolColumns(data);
    var methods: Assoc<string> := [];
    var options: Assoc<Assoc<string>> := [];
    var i := 0;
    while i < |data|
      invariant 0 <= i <= |data|
      invariant EnrolTables(methods, options) == CollectEnrolment(cols[..i])
    {
      var (field, value) := data[i];
      var parsed := ParseEnrolment(field);
      if parsed.Some? {
        var key := parsed.value.index;
        if Lookup(options, key).None? {
          options := Put(options, key, []);
        }
        if IsEmpty(parsed.value.option) {
          methods := Put(methods, key, value);
        } else {
          options := Put(options, key, Put(OptionsOf(options, key), parsed.value.option, value));
        }
      }
      assert cols[..i + 1][..i] == cols[..i];
      i := i + 1;
    }
    assert cols[..i] == cols;
    r := [];
    if methods != [] {
      var j := 0;
      while j < |methods|
        invariant 0 <= j <= |methods|
        invariant r == CombineEnrolment(methods[..j], options, plugins)
      {
        var (key, name) := methods[j];
        if name in plugins {
          r := Put(r, name, OptionsOf(options, key));
        }
        assert methods[..j + 1][..j] == methods[..j];
        j := j + 1;
      }
      assert methods[..j] == methods;
    }
  }

  /** A column the pattern accepted, with its number and option. */
  predicate EnrolAt(cols: seq<Column>, i: int, index: string, option: string) {
    0 <= i < |cols| && cols[i].0 == Some(EnrolColumn(index, option))
  }

  /** One column's effect on the two key sets. */
  lemma EnrolStepKeys(t: EnrolTables, col: Column)
    ensures var t' := EnrolStep(t, col);
      Keys(t'.options) == Keys(t.options) + (if col.0.Some? then {col.0.value.index} else {})
      && Keys(t'.methods) == Keys(t.methods) + (if col.0.Some? && IsEmpty(col.0.value.option) then {col.0.value.index} else {})
      && (DistinctKeys(t.options) ==> DistinctKeys(t'.options))
      && (DistinctKeys(t.methods) ==> DistinctKeys(t'.methods))
  {
    if col.0.Some? {
      var c := col.0.value;
      LookupKeys(t.options, c.index);
      PutKeys(t.options, c.index, []);
      var options := if Lookup(t.options, c.index).Some? then t.options else Put(t.options, c.index, []);
      if IsEmpty(c.option) {
        PutKeys(t.methods, c.index, col.1);
      } else {
        PutKeys(options, c.index, Put(OptionsOf(options, c.index), c.option, col.1));
      }
    }
  }

  /** One column's effect on the recorded methods. */
  lemma EnrolStepMethod(t: EnrolTables, col: Column, index: string)
    ensures Lookup(EnrolStep(t, col).methods, index)
        == if col.0.Some? && col.0.value.index == index && IsEmpty(col.0.value.option) then Some(col.1)
           else Lookup(t.methods, index)
  {
    if col.0.Some? && IsEmpty(col.0.value.option) {
      PutLookup(t.methods, col.0.value.index, col.1, index);
    }
  }

  /** One column's effect on the recorded options. */
  lemma EnrolStepOption(t: EnrolTables, col: Column, index: string, option: string)
    ensures Lookup(OptionsOf(EnrolStep(t, col).options, index), option)
        == if col.0 == Some(EnrolColumn(index, option)) && !IsEmpty(option) then Some(col.1)
           else Lookup(OptionsOf(t.options, index), option)
  {
    if col.0.Some? {
      var c := col.0.value;
      var options := if Lookup(t.options, c.index).Some? then t.options else Put(t.options, c.index, []);
      PutLookup(t.options, c.index, [], index);
      assert OptionsOf(options, index) == OptionsOf(t.options, index);
      if !IsEmpty(c.option) {
        PutLookup(options, c.index, Put(OptionsOf(options, c.index), c.option, col.1), index);
        if c.index == index {
          PutLookup(OptionsOf(options, index), c.option, col.1, option);
        }
      }
    }
  }

  /** Both arrays of the first loop have each number once. */
  lemma {:induction false} CollectDistinct(cols: seq<Column>)
    ensures DistinctKeys(CollectEnrolment(cols).methods) && DistinctKeys(CollectEnrolment(cols).options)
    decreases |cols|
  {
    if cols != [] {
      CollectDistinct(cols[..|cols| - 1]);
      EnrolStepKeys(CollectEnrolment(cols[..|cols| - 1]), cols[|cols| - 1]);
    }
  }

  /** The numbers with an options array are exactly the numbers of accepted
      columns. */
  lemma {:induction false} CollectOptionKeys(cols: seq<Column>, x: string)
    ensures x in Keys(CollectEnrolment(cols).options) <==> exists i, o :: EnrolAt(cols, i, x, o)
    decreases |cols|
  {
    if cols != [] {
      var prev := cols[..|cols| - 1];
      var last := |cols| - 1;
      CollectOptionKeys(prev, x);
      EnrolStepKeys(CollectEnrolment(prev), cols[last]);
      if exists i, o :: EnrolAt(prev, i, x, o) {
        var i, o :| EnrolAt(prev, i, x, o);
        assert EnrolAt(cols, i, x, o);
      }
      if exists i, o :: EnrolAt(cols, i, x, o) {
        var i, o :| EnrolAt(cols, i, x, o);
        if i < last {
          assert EnrolAt(prev, i, x, o);
        }
      }
      if cols[last].0.Some? {
        assert EnrolAt(cols, last, cols[last].0.value.index, cols[last].0.value.option);
      }
    }
  }

  /** The numbers with a method are exactly the numbers of accepted columns whose
      option is empty(). */
  lemma {:induction false} CollectMethodKeys(cols: seq<Column>, x: string)
    ensures x in Keys(CollectEnrolment(cols).methods) <==> exists i, o :: EnrolAt(cols, i, x, o) && IsEmpty(o)
    decreases |cols|
  {
    if cols != [] {
      var prev := cols[..|cols| - 1];
      var last := |cols| - 1;
      CollectMethodKeys(prev, x);
      EnrolStepKeys(CollectEnrolment(prev), cols[last]);
      if exists i, o :: EnrolAt(prev, i, x, o) && IsEmpty(o) {
        var i, o :| EnrolAt(prev, i, x, o) && IsEmpty(o);
        assert EnrolAt(cols, i, x, o);
      }
      if exists i, o :: EnrolAt(cols, i, x, o) && IsEmpty(o) {
        var i, o :| EnrolAt(cols, i, x, o) && IsEmpty(o);
        if i < last {
          assert EnrolAt(prev, i, x, o);
        }
      }
      if cols[last].0.Some? {
        assert EnrolAt(cols, last, cols[last].0.value.index, cols[last].0.value.option);
      }
    }
  }

  /** Later columns overwrite earlier ones: the method recorded for a number is the
      value of the last column naming that number's method. */
  lemma {:induction false} CollectMethodValue(cols: seq<Column>, i: int, index: string, option: string)
    requires EnrolAt(cols, i, index, option) && IsEmpty(option)
    requires forall j, o :: i < j < |cols| && IsEmpty(o) ==> !EnrolAt(cols, j, index, o)
    ensures Lookup(CollectEnrolment(cols).methods, index) == Some(cols[i].1)
    decreases |cols|
  {
    var prev := cols[..|cols| - 1];
    var last := |cols| - 1;
    EnrolStepMethod(CollectEnrolment(prev), cols[last], index);
    if i < last {
      assert EnrolAt(prev, i, index, option);
      forall j, o | i < j < last && IsEmpty(o) ensures !EnrolAt(prev, j, index, o) {
        assert !EnrolAt(cols, j, index, o);
      }
      CollectMethodValue(prev, i, index, option);
      if cols[last].0.Some? && IsEmpty(cols[last].0.value.option) {
        assert !EnrolAt(cols, last, index, cols[last].0.value.option);
      }
    }
  }

  /** The same for an option: its value is that of the last column naming it. */
  lemma {:induction false} CollectOptionValue(cols: seq<Column>, i: int, index: string, option: string)
    requires EnrolAt(cols, i, index, option) && !IsEmpty(option)
    requires forall j :: i < j < |cols| ==> !EnrolAt(cols, j, index, option)
    ensures Lookup(OptionsOf(CollectEnrolment(cols).options, index), option) == Some(cols[i].1)
    decreases |cols|
  {
    var prev := cols[..|cols| - 1];
    var last := |cols| - 1;
    EnrolStepOption(CollectEnrolment(prev), cols[last], index, option);
    if i < last {
      assert EnrolAt(prev, i, index, option);
      forall j | i < j < last ensures !EnrolAt(prev, j, index, option) {
        assert !EnrolAt(cols, j, index, option);
      }
      CollectOptionValue(prev, i, index, option);
      assert !EnrolAt(cols, last, index, option);
    }
  }

  /** Conversely, every option recorded for a number comes from a column naming
      that number and that option, which is not empty(), and has that column's
      value. */
  lemma {:induction false} OptionFromColumn(cols: seq<Column>, index: string, option: string)
    requires Lookup(OptionsOf(CollectEnrolment(cols).options, index), option).Some?
    ensures !IsEmpty(option)
    ensures exists i :: EnrolAt(cols, i, index, option)
                        && Lookup(OptionsOf(CollectEnrolment(cols).options, index), option) == Some(cols[i].1)
    decreases |cols|
  {
    var prev := cols[..|cols| - 1];
    var last := |cols| - 1;
    EnrolStepOption(CollectEnrolment(prev), cols[last], index, option);
    if cols[last].0 == Some(EnrolColumn(index, option)) && !IsEmpty(option) {
      assert EnrolAt(cols, last, index, option);
    } else {
      OptionFromColumn(prev, index, option);
      var i :| EnrolAt(prev, i, index, option)
               && Lookup(OptionsOf(CollectEnrolment(prev).options, index), option) == Some(prev[i].1);
      assert EnrolAt(cols, i, index, option);
    }
  }

  /** One column's effect on a number's options array: untouched, or assigned
      the column's option. */
  lemma EnrolStepOptionsOf(t: EnrolTables, col: Column, index: string)
    ensures var after := OptionsOf(EnrolStep(t, col).options, index);
      if col.0.Some? && col.0.value.index == index && !IsEmpty(col.0.value.option)
      then after == Put(OptionsOf(t.options, index), col.0.value.option, col.1)
      else after == OptionsOf(t.options, index)
  {
    if col.0.Some? {
      var c := col.0.value;
      var options := if Lookup(t.options, c.index).Some? then t.options else Put(t.options, c.index, []);
      PutLookup(t.options, c.index, [], index);
      assert OptionsOf(options, index) == OptionsOf(t.options, index);
      if !IsEmpty(c.option) {
        PutLookup(options, c.index, Put(OptionsOf(options, c.index), c.option, col.1), index);
      }
    }
  }

  /** Each number's options array names each option once. */
  lemma {:induction false} CollectOptionsDistinct(cols: seq<Column>, index: string)
    ensures DistinctKeys(OptionsOf(CollectEnrolment(cols).options, index))
    decreases |cols|
  {
    if cols != [] {
      var prev := cols[..|cols| - 1];
      var last := |cols| - 1;
      var t0 := CollectEnrolment(prev);
      CollectOptionsDistinct(prev, index);
      EnrolStepOptionsOf(t0, cols[last], index);
      if cols[last].0.Some? {
        PutKeys(OptionsOf(t0.options, index), cols[last].0.value.option, cols[last].1);
      }
    }
  }

  /** The plugins the result lists: exactly the methods that name an installed
      plugin (unknown methods are skipped), each once. */
  lemma {:induction false} CombineKeys(methods: Assoc<string>, options: Assoc<Assoc<string>>, plugins: set<string>, m: string)
    ensures var r := CombineEnrolment(methods, options, plugins);
      DistinctKeys(r)
      && (m in Keys(r) <==> m in plugins && exists i :: 0 <= i < |methods| && methods[i].1 == m)
    decreases |methods|
  {
    if methods != [] {
      var prev := methods[..|methods| - 1];
      var r0 := CombineEnrolment(prev, options, plugins);
      var (key, name) := methods[|methods| - 1];
      CombineKeys(prev, options, plugins, m);
      forall i | 0 <= i < |prev| ensures methods[i] == prev[i] { }
      if name in plugins {
        PutKeys(r0, name, OptionsOf(options, key));
      }
      if m == name {
        assert methods[|methods| - 1].1 == m;
      }
    }
  }

  /** The options listed for a plugin are those of the last number naming it. */
  lemma {:induction false} CombineValue(methods: Assoc<string>, options: Assoc<Assoc<string>>, plugins: set<string>, i: int)
    requires 0 <= i < |methods| && methods[i].1 in plugins
    requires forall j :: i < j < |methods| ==> methods[j].1 != methods[i].1
    ensures Lookup(CombineEnrolment(methods, options, plugins), methods[i].1) == Some(OptionsOf(options, methods[i].0))
    decreases |methods|
  {
    var prev := methods[..|methods| - 1];
    var r0 := CombineEnrolment(prev, options, plugins);
    var (key, name) := methods[|methods| - 1];
    if i < |prev| {
      assert prev[i] == methods[i];
      forall j | i < j < |prev| ensures prev[j].1 != prev[i].1 {
        assert prev[j] == methods[j];
      }
      CombineValue(prev, options, plugins, i);
      if name in plugins {
        PutLookup(r0, name, OptionsOf(options, key), methods[i].1);
      }
    } else {
      PutLookup(r0, name, OptionsOf(options, key), name);
    }
  }

  /** Every plugin listed got the options of some number whose method names it. */
  lemma {:induction false} CombineFrom(methods: Assoc<string>, options: Assoc<Assoc<string>>, plugins: set<string>, m: string)
    requires Lookup(CombineEnrolment(methods, options, plugins), m).Some?
    ensures exists j :: 0 <= j < |methods| && methods[j].1 == m
                        && Lookup(CombineEnrolment(methods, options, plugins), m) == Some(OptionsOf(options, methods[j].0))
    decreases |methods|
  {
    var prev := methods[..|methods| - 1];
    var r0 := CombineEnrolment(prev, options, plugins);
    var (key, name) := methods[|methods| - 1];
    if name in plugins {
      PutLookup(r0, name, OptionsOf(options, key), m);
    }
    if name in plugins && m == name {
      assert methods[|methods| - 1].1 == m;
    } else {
      CombineFrom(prev, options, plugins, m);
      var j :| 0 <= j < |prev| && prev[j].1 == m && Lookup(r0, m) == Some(OptionsOf(options, prev[j].0));
      assert methods[j] == prev[j];
    }
  }

  /** Every entry of an assignment's result is the new pair or an old entry. */
  lemma {:induction false} PutEntry<V>(m: Assoc<V>, k: string, v: V, j: int)
    requires 0 <= j < |Put(m, k, v)|
    ensures Put(m, k, v)[j] == (k, v) || Put(m, k, v)[j] in m
    decreases |m|
  {
    if m != [] && m[0].0 != k && j > 0 {
      PutEntry(m[1..], k, v, j - 1);
      assert Put(m, k, v)[j] == Put(m[1..], k, v)[j - 1];
    } else if m != [] && j > 0 {
      assert Put(m, k, v)[j] == m[j];
    }
  }

  lemma {:induction false} LookupEntry<V>(m: Assoc<V>, k: string)
    requires Lookup(m, k).Some?
    ensures (k, Lookup(m, k).value) in m
    decreases |m|
  {
    if m[0].0 != k {
      LookupEntry(m[1..], k);
    }
  }

  /** Every (number, method) pair recorded comes from a method column. */
  lemma {:induction false} MethodsFromColumns(cols: seq<Column>, e: (string, string))
    requires e in CollectEnrolment(cols).methods
    ensures exists i, o :: EnrolAt(cols, i, e.0, o) && IsEmpty(o) && cols[i].1 == e.1
    decreases |cols|
  {
    var prev := cols[..|cols| - 1];
    var last := |cols| - 1;
    var t0 := CollectEnrolment(prev);
    if e in t0.methods {
      MethodsFromColumns(prev, e);
      var i, o :| EnrolAt(prev, i, e.0, o) && IsEmpty(o) && prev[i].1 == e.1;
      assert EnrolAt(cols, i, e.0, o);
    } else {
      var c := cols[last].0.value;
      var ms := Put(t0.methods, c.index, cols[last].1);
      var j :| 0 <= j < |ms| && ms[j] == e;
      PutEntry(t0.methods, c.index, cols[last].1, j);
      assert EnrolAt(cols, last, e.0, c.option);
    }
  }

  /** get_enrolment_data's result names only installed plugins, each once, and
      each of them is the value of a method column of the row. */
  lemma EnrolmentDataPlugins(data: Assoc<string>, plugins: set<string>, m: string)
    ensures var r := EnrolmentData(data, plugins);
      DistinctKeys(r)
      && (m in Keys(r) ==> m in plugins && exists i, x, o :: EnrolAt(EnrolColumns(data), i, x, o) && IsEmpty(o) && data[i].1 == m)
  {
    var cols := EnrolColumns(data);
    var t := CollectEnrolment(cols);
    CombineKeys(t.methods, t.options, plugins, m);
    if m in Keys(EnrolmentData(data, plugins)) {
      var j :| 0 <= j < |t.methods| && t.methods[j].1 == m;
      MethodsFromColumns(cols, t.methods[j]);
    }
  }

  /** Conversely, the last method column of a number shows up when its value
      names an installed plugin. */
  lemma EnrolmentDataComplete(data: Assoc<string>, plugins: set<string>, i: int, x: string, o: string)
    requires EnrolAt(EnrolColumns(data), i, x, o) && IsEmpty(o) && data[i].1 in plugins
    requires forall j, o2 :: i < j < |data| && IsEmpty(o2) ==> !EnrolAt(EnrolColumns(data), j, x, o2)
    ensures data[i].1 in Keys(EnrolmentData(data, plugins))
  {
    var cols := EnrolColumns(data);
    var t := CollectEnrolment(cols);
    CollectMethodValue(cols, i, x, o);
    LookupEntry(t.methods, x);
    var j :| 0 <= j < |t.methods| && t.methods[j] == (x, data[i].1);
    CombineKeys(t.methods, t.options, plugins, data[i].1);
  }

  /** The options get_enrolment_data lists for a plugin name each option once,
      and they are those of one number x whose method column names the plugin:
      every option o listed comes from a column `enrolment_<x>_<o>` with a
      non-empty o, and has that column's value. */
  lemma EnrolmentDataOptions(data: Assoc<string>, plugins: set<string>, m: string, o: string)
    requires Lookup(EnrolmentData(data, plugins), m).Some?
    ensures var opts := Lookup(EnrolmentData(data, plugins), m).value;
      DistinctKeys(opts)
      && exists x, i0, o0 :: EnrolAt(EnrolColumns(data), i0, x, o0) && IsEmpty(o0) && data[i0].1 == m
           && (Lookup(opts, o).Some? ==>
                 !IsEmpty(o) && exists i :: EnrolAt(EnrolColumns(data), i, x, o) && Lookup(opts, o) == Some(data[i].1))
  {
    var cols := EnrolColumns(data);
    var t := CollectEnrolment(cols);
    var opts := Lookup(EnrolmentData(data, plugins), m).value;
    CombineFrom(t.methods, t.options, plugins, m);
    var j :| 0 <= j < |t.methods| && t.methods[j].1 == m
             && Lookup(CombineEnrolment(t.methods, t.options, plugins), m) == Some(OptionsOf(t.options, t.methods[j].0));
    var x := t.methods[j].0;
    assert opts == OptionsOf(t.options, x);
    CollectOptionsDistinct(cols, x);
    MethodsFromColumns(cols, t.methods[j]);
    var i0, o0 :| EnrolAt(cols, i0, x, o0) && IsEmpty(o0) && cols[i0].1 == m;
    if Lookup(opts, o).Some? {
      OptionFromColumn(cols, x, o);
    }
  }

  // ---------------------------------------------------------------------------
  // get_role_names

  /** A column as the role loop sees it: the shortname captured, when the pattern
      matched, and the column's value. */
  type RoleColumn = (Option<string>, string)

  function RoleColumns(data: Assoc<string>): (cols: seq<RoleColumn>)
    ensures |cols| == |data|
    ensures forall i :: 0 <= i < |data| ==> cols[i] == (ParseRole(data[i].0), data[i].1)
  {
    seq(|data|, i requires 0 <= i < |data| => (ParseRole(data[i].0), data[i].1))
  }

  /** The key a renaming is stored under: `'role_' . $id`. */
  function RoleKey(id: nat): string {
    RolePrefix + Dec(id)
  }

  lemma RoleKeyInjective(a: nat, b: nat)
    requires RoleKey(a) == RoleKey(b)
    ensures a == b
  {
    assert Dec(a) == RoleKey(a)[|RolePrefix|..];
    assert Dec(b) == RoleKey(b)[|RolePrefix|..];
    DecInjective(a, b);
  }

  /** `$rolenames` and `$invalidroles` during the loop. */
  datatype RoleTables = RoleTables(names: Assoc<string>, invalid: seq<string>)

  /** One column: an unknown shortname is recorded as invalid, a known one renames
      its role. */
  function RoleStep(t: RoleTables, col: RoleColumn, roleIds: map<string, nat>): RoleTables {
    match col.0
    case None => t
    case Some(sn) =>
      if sn in roleIds then RoleTables(Put(t.names, RoleKey(roleIds[sn]), col.1), t.invalid)
      else RoleTables(t.names, t.invalid + [sn])
  }

  function CollectRoles(cols: seq<RoleColumn>, roleIds: map<string, nat>): RoleTables
    decreases |cols|
  {
    if cols == [] then RoleTables([], [])
    else RoleStep(CollectRoles(cols[..|cols| - 1], roleIds), cols[|cols| - 1], roleIds)
  }

  /** The renamings get_role_names returns. */
  function RoleNames(data: Assoc<string>, roleIds: map<string, nat>): Assoc<string> {
    CollectRoles(RoleColumns(data), roleIds).names
  }

  /** The shortnames listed in the `invalidroles` error, in column order. */
  function InvalidRoles(data: Assoc<string>, roleIds: map<string, nat>): seq<string> {
    CollectRoles(RoleColumns(data), roleIds).invalid
  }

  const ErrInvalidRoles := "invalidroles"

  /** get_role_names: `roleIds` is get_role_ids() (shortname -> id), and the error
      keys the caller passed in come back with `invalidroles` added when some role
      column names an unknown shortname. */
  method GetRoleNames(data: Assoc<string>, roleIds: map<string, nat>, errors: set<string>)
    returns (names: Assoc<string>, errorsOut: set<string>)
    ensures names == RoleNames(data, roleIds)
    ensures errorsOut == if InvalidRoles(data, roleIds) == [] then errors else errors + {ErrInvalidRoles}
  {
    ghost var cols := RoleColumns(data);
    names := [];
    var invalid: seq<string> := [];
    var i := 0;
    while i < |data|
      invariant 0 <= i <= |data|
      invariant RoleTables(names, invalid) == CollectRoles(cols[..i], roleIds)
    {
      var (field, value) := data[i];
      var parsed := ParseRole(field);
      if parsed.Some? {
        var sn := parsed.value;
        if sn !in roleIds {
          invalid := invalid + [sn];
        } else {
          names := Put(names, RoleKey(roleIds[sn]), value);
        }
      }
      assert cols[..i + 1][..i] == cols[..i];
      i := i + 1;
    }
    assert cols[..i] == cols;
    errorsOut := errors;
    if invalid != [] {
      errorsOut := errorsOut + {ErrInvalidRoles};
    }
  }

  /** A role column of the row, with the shortname it names. */
  predicate RoleAt(cols: seq<RoleColumn>, i: int, sn: string) {
    0 <= i < |cols| && cols[i].0 == Some(sn)
  }

  /** A role column whose shortname is known and maps to the given id. */
  predicate RenamesAt(cols: seq<RoleColumn>, roleIds: map<string, nat>, i: int, id: nat) {
    0 <= i < |cols| && cols[i].0.Some? && cols[i].0.value in roleIds && roleIds[cols[i].0.value] == id
  }

  /** The renamed roles are exactly the ids of known shortnames in role columns,
      each stored once. */
  lemma {:induction false} CollectRoleKeys(cols: seq<RoleColumn>, roleIds: map<string, nat>, id: nat)
    ensures DistinctKeys(CollectRoles(cols, roleIds).names)
    ensures RoleKey(id) in Keys(CollectRoles(cols, roleIds).names) <==> exists i :: RenamesAt(cols, roleIds, i, id)
    decreases |cols|
  {
    if cols != [] {
      var prev := cols[..|cols| - 1];
      var last := |cols| - 1;
      var t := CollectRoles(prev, roleIds);
      CollectRoleKeys(prev, roleIds, id);
      if cols[last].0.Some? && cols[last].0.value in roleIds {
        var other := roleIds[cols[last].0.value];
        PutKeys(t.names, RoleKey(other), cols[last].1);
        if RoleKey(other) == RoleKey(id) {
          RoleKeyInjective(other, id);
          assert RenamesAt(cols, roleIds, last, id);
        } else if RenamesAt(cols, roleIds, last, id) {
          assert false;
        }
      }
      if exists i :: RenamesAt(prev, roleIds, i, id) {
        var i :| RenamesAt(prev, roleIds, i, id);
        assert RenamesAt(cols, roleIds, i, id);
      }
      if exists i :: RenamesAt(cols, roleIds, i, id) {
        var i :| RenamesAt(cols, roleIds, i, id);
        if i < last {
          assert RenamesAt(prev, roleIds, i, id);
        }
      }
    }
  }

  /** Every key stored is the key of a role id. */
  lemma {:induction false} CollectRoleKeysShape(cols: seq<RoleColumn>, roleIds: map<string, nat>, k: string)
    requires k in Keys(CollectRoles(cols, roleIds).names)
    ensures exists i :: 0 <= i < |cols| && cols[i].0.Some? && cols[i].0.value in roleIds && k == RoleKey(roleIds[cols[i].0.value])
    decreases |cols|
  {
    var prev := cols[..|cols| - 1];
    var last := |cols| - 1;
    var t := CollectRoles(prev, roleIds);
    if cols[last].0.Some? && cols[last].0.value in roleIds {
      PutKeys(t.names, RoleKey(roleIds[cols[last].0.value]), cols[last].1);
    }
    if k in Keys(t.names) {
      CollectRoleKeysShape(prev, roleIds, k);
      var i :| 0 <= i < |prev| && prev[i].0.Some? && prev[i].0.value in roleIds && k == RoleKey(roleIds[prev[i].0.value]);
      assert cols[i] == prev[i];
    }
  }

  /** Later columns win: a role is renamed to the value of the last column that
      names it (through any shortname with that id). */
  lemma {:induction false} CollectRoleValue(cols: seq<RoleColumn>, roleIds: map<string, nat>, i: int, id: nat)
    requires RenamesAt(cols, roleIds, i, id)
    requires forall j :: i < j < |cols| ==> !RenamesAt(cols, roleIds, j, id)
    ensures Lookup(CollectRoles(cols, roleIds).names, RoleKey(id)) == Some(cols[i].1)
    decreases |cols|
  {
    var prev := cols[..|cols| - 1];
    var last := |cols| - 1;
    var t := CollectRoles(prev, roleIds);
    if cols[last].0.Some? && cols[last].0.value in roleIds {
      var other := roleIds[cols[last].0.value];
      PutLookup(t.names, RoleKey(other), cols[last].1, RoleKey(id));
      if i < last && RoleKey(other) == RoleKey(id) {
        RoleKeyInjective(other, id);
        assert RenamesAt(cols, roleIds, last, id);
      }
    }
    if i < last {
      assert RenamesAt(prev, roleIds, i, id);
      forall j | i < j < last ensures !RenamesAt(prev, roleIds, j, id) {
        assert !RenamesAt(cols, roleIds, j, id);
      }
      CollectRoleValue(prev, roleIds, i, id);
    }
  }

  /** The shortnames reported invalid are exactly those of role columns that are
      not known roles. */
  lemma {:induction false} CollectInvalid(cols: seq<RoleColumn>, roleIds: map<string, nat>, sn: string)
    ensures sn in CollectRoles(cols, roleIds).invalid <==> sn !in roleIds && exists i :: RoleAt(cols, i, sn)
    decreases |cols|
  {
    if cols != [] {
      var prev := cols[..|cols| - 1];
      var last := |cols| - 1;
      var t := CollectRoles(prev, roleIds);
      CollectInvalid(prev, roleIds, sn);
      if cols[last].0.Some? {
        var x := cols[last].0.value;
        assert RoleAt(cols, last, x);
        if x !in roleIds {
          assert sn in t.invalid + [x] <==> sn in t.invalid || sn == x;
        }
      }
      if exists i :: RoleAt(prev, i, sn) {
        var i :| RoleAt(prev, i, sn);
        assert RoleAt(cols, i, sn);
      }
      if exists i :: RoleAt(cols, i, sn) {
        var i :| RoleAt(cols, i, sn);
        if i < last {
          assert RoleAt(prev, i, sn);
        }
      }
    }
  }

  /** The `invalidroles` error is raised exactly when a role column names a
      shortname that is not a role. */
  lemma InvalidRolesError(data: Assoc<string>, roleIds: map<string, nat>)
    ensures InvalidRoles(data, roleIds) != [] <==>
      exists i :: 0 <= i < |data| && ParseRole(data[i].0).Some? && ParseRole(data[i].0).value !in roleIds
  {
    var cols := RoleColumns(data);
    var inv := InvalidRoles(data, roleIds);
    if inv != [] {
      CollectInvalid(cols, roleIds, inv[0]);
      var i :| RoleAt(cols, i, inv[0]);
      assert ParseRole(data[i].0) == Some(inv[0]);
    }
    if exists i :: 0 <= i < |data| && ParseRole(data[i].0).Some? && ParseRole(data[i].0).value !in roleIds {
      var i :| 0 <= i < |data| && ParseRole(data[i].0).Some? && ParseRole(data[i].0).value !in roleIds;
      var sn := ParseRole(data[i].0).value;
      assert RoleAt(cols, i, sn);
      CollectInvalid(cols, roleIds, sn);
    }
  }

  /** A row renaming "student", naming an unknown role, and a non-role column. */
  const RoleRow: Assoc<string> := [("role_student", "Learner"), ("role_ghost", "Spook"), ("fullname", "Physics")]

  lemma RoleRowStudent()
    ensures ParseRole("role_student") == Some("student")
  {
    RoleColumnNames("student", "");
    assert RolePrefix + "student" + "" == "role_student";
  }

  lemma RoleRowGhost()
    ensures ParseRole("role_ghost") == Some("ghost")
  {
    RoleColumnNames("ghost", "");
    assert RolePrefix + "ghost" + "" == "role_ghost";
  }

  lemma RoleRowColumns()
    ensures RoleColumns(RoleRow) == [(Some("student"), "Learner"), (Some("ghost"), "Spook"), (None, "Physics")]
  {
    RoleRowStudent();
    RoleRowGhost();
    assert "fullname"[0] != RolePrefix[0];
  }

  lemma RoleRowCollect(cols: seq<RoleColumn>)
    requires cols == [(Some("student"), "Learner"), (Some("ghost"), "Spook"), (None, "Physics")]
    ensures CollectRoles(cols, map["student" := 5]) == RoleTables([("role_5", "Learner")], ["ghost"])
  {
    var ids := map["student" := 5];
    assert RoleKey(5) == "role_5" by { assert Dec(5) == "5"; }
    var t1 := RoleTables([("role_5", "Learner")], []);
    assert cols[..1][..0] == [];
    assert CollectRoles(cols[..1], ids) == t1;
    assert cols[..2][..1] == cols[..1];
    assert CollectRoles(cols[..2], ids) == RoleTables([("role_5", "Learner")], ["ghost"]);
    assert cols[..2] == cols[..|cols| - 1];
  }

  /** The known role is stored under its id, the unknown one is reported. */
  lemma RoleNamesExample()
    ensures RoleNames(RoleRow, map["student" := 5]) == [("role_5", "Learner")]
    ensures InvalidRoles(RoleRow, map["student" := 5]) == ["ghost"]
  {
    RoleRowColumns();
    RoleRowCollect(RoleColumns(RoleRow));
  }

  /** Method 1 with an option, and a method 2 naming a plugin that is not
      installed. */
  const EnrolRow: Assoc<string> := [("enrolment_1", "manual"), ("enrolment_1_role", "student"), ("enrolment_2", "bogus")]

  lemma EnrolRowName(c: EnrolColumn, field: string)
    requires ValidEnrolColumn(c) && field == EnrolName(c)
    ensures ParseEnrolment(field) == Some(c)
  {
    EnrolmentColumnNames(c, "");
    assert EnrolName(c) + "" == field;
  }

  /** The three field names of EnrolRow, each parsed in a proof of its own
      (together they are costly for the solver). */
  lemma EnrolRowMethod1()
    ensures ParseEnrolment("enrolment_1") == Some(EnrolColumn("1", ""))
  {
    EnrolRowName(EnrolColumn("1", ""), "enrolment_1");
  }

  lemma EnrolRowOption1()
    ensures ParseEnrolment("enrolment_1_role") == Some(EnrolColumn("1", "role"))
  {
    EnrolRowName(EnrolColumn("1", "role"), "enrolment_1_role");
  }

  lemma EnrolRowMethod2()
    ensures ParseEnrolment("enrolment_2") == Some(EnrolColumn("2", ""))
  {
    EnrolRowName(EnrolColumn("2", ""), "enrolment_2");
  }

  lemma EnrolRowColumns()
    ensures EnrolColumns(EnrolRow)
      == [(Some(EnrolColumn("1", "")), "manual"), (Some(EnrolColumn("1", "role")), "student"), (Some(EnrolColumn("2", "")), "bogus")]
  {
    EnrolRowMethod1();
    EnrolRowOption1();
    EnrolRowMethod2();
  }

  lemma EnrolRowCollect(cols: seq<Column>)
    requires cols == [(Some(EnrolColumn("1", "")), "manual"), (Some(EnrolColumn("1", "role")), "student"), (Some(EnrolColumn("2", "")), "bogus")]
    ensures CollectEnrolment(cols) == EnrolTables([("1", "manual"), ("2", "bogus")], [("1", [("role", "student")]), ("2", [])])
  {
    var t1 := EnrolTables([("1", "manual")], [("1", [])]);
    assert cols[..1][..0] == [];
    assert CollectEnrolment(cols[..1]) == t1;
    assert OptionsOf(t1.options, "1") == [];
    assert cols[..2][..1] == cols[..1];
    assert CollectEnrolment(cols[..2]) == EnrolTables([("1", "manual")], [("1", [("role", "student")])]);
    assert cols[..2] == cols[..|cols| - 1];
  }

  /** Only the installed plugin is returned, with the option collected for its
      number. */
  lemma EnrolmentDataExample()
    ensures EnrolmentData(EnrolRow, {"manual"}) == [("manual", [("role", "student")])]
  {
    EnrolRowColumns();
    EnrolRowCollect(EnrolColumns(EnrolRow));
    var ms: Assoc<string> := [("1", "manual"), ("2", "bogus")];
    var options: Assoc<Assoc<string>> := [("1", [("role", "student")]), ("2", [])];
    assert OptionsOf(options, "1") == [("role", "student")];
    assert ms[..1][..0] == [];
    assert CombineEnrolment(ms[..1], options, {"manual"}) == [("manual", [("role", "student")])];
    assert ms[..1] == ms[..|ms| - 1];
  }
}
