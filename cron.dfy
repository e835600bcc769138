/**
 * `CronUtils` (utils/cron.py): repairing a five-field crontab expression
 * field by field, and the default schedule. Validation through the
 * scheduler library is not part of this model.
 */
module Cron {
  import opened Wrappers
  import opened Strings

  /** The (min, max) bounds of minute, hour, day of month, month and day of week. */
  const FieldRanges: seq<(int, int)> := [(0, 59), (0, 23), (1, 31), (1, 12), (0, 7)]

  /** `get_default_cron()`: every six hours on the hour. */
  const DefaultCron: string := "0 */6 * * *"

  /** Bounds every row of the table meets, and which the idempotence proof needs. */
  predicate SaneRange(lo: int, hi: int) {
    0 <= lo <= hi && 1 <= hi
  }

  lemma FieldRangesSane()
    ensures |FieldRanges| == 5
    ensures forall i | 0 <= i < 5 :: SaneRange(FieldRanges[i].0, FieldRanges[i].1)
  {
  }

  /** `max(lo, min(v, hi))`, the clamp used on both ends of a range. */
  function ClampRange(v: int, lo: int, hi: int): (r: int)
    ensures lo <= hi ==> lo <= r <= hi
    ensures lo <= v <= hi ==> r == v
  {
    if v < hi then (if lo < v then v else lo) else (if lo < hi then hi else lo)
  }

  /** The clamp of a single value: too large gives `hi`, else too small gives `lo`. */
  function ClampSingle(v: int, lo: int, hi: int): (r: int)
    ensures lo <= hi ==> lo <= r <= hi
    ensures lo <= v <= hi ==> r == v
  {
    if v > hi then hi else if v < lo then lo else v
  }

  /** The clamp of a step: too large gives `hi`, else below 1 gives 1. */
  function ClampStep(v: int, hi: int): (r: int)
    ensures 1 <= hi ==> 1 <= r <= hi
    ensures 1 <= v <= hi ==> r == v
  {
    if v > hi then hi else if v < 1 then 1 else v
  }

  /**
   * `_fix_cron_field`: "*" is kept; then, in this order, a comma list, a
   * step "base/s", a range "a-b", and a single value.
   */
  function FixField(field: string, lo: int, hi: int): string
    decreases |field|, 1
  {
    if field == "*" then field
    else if ',' in field then FixList(field, lo, hi)
    else if '/' in field then FixStep(field, lo, hi)
    else if '-' in field then FixRange(field, lo, hi)
    else FixSingle(field, lo, hi)
  }

  /** A comma list: every element is stripped and repaired, then the list is rejoined with ",". */
  function FixList(field: string, lo: int, hi: int): string
    requires ',' in field
    decreases |field|, 0
  {
    var values := Split(field, ',');
    SplitPartsShorter(field, ',');
    Join(seq(|values|, i requires 0 <= i < |values| => FixField(Strip(values[i]), lo, hi)), ",")
  }

  /**
   * A step: the part before the first "/" is repaired; the step after it is
   * clamped into [1, hi], or the whole field is kept when it is not an integer.
   */
  function FixStep(field: string, lo: int, hi: int): string
    requires '/' in field
    decreases |field|, 0
  {
    var halves := SplitFirst(field, '/').value;
    var fixedBase := FixField(halves.0, lo, hi);
    var step := ParseInt(halves.1);
    if step.None? then field
    else fixedBase + "/" + IntToString(ClampStep(step.value, hi))
  }

  /**
   * A range split at the first "-": both ends clamped and put in order, or
   * the whole field kept when either end is not an integer.
   */
  function FixRange(field: string, lo: int, hi: int): string
    requires '-' in field
  {
    var ends := SplitFirst(field, '-').value;
    var start := ParseInt(ends.0);
    var end := ParseInt(ends.1);
    if start.None? || end.None? then field
    else
      var a := ClampRange(start.value, lo, hi);
      var b := ClampRange(end.value, lo, hi);
      if a > b then IntToString(b) + "-" + IntToString(a)
      else IntToString(a) + "-" + IntToString(b)
  }

  /** A single value: clamped, or kept when it is not an integer. */
  function FixSingle(field: string, lo: int, hi: int): string {
    var v := ParseInt(field);
    if v.None? then field else IntToString(ClampSingle(v.value, lo, hi))
  }

  /** The repaired fields of a five-field expression, field i against range i. */
  function FixParts(parts: seq<string>): (r: seq<string>)
    requires |parts| == 5
    ensures |r| == 5
  {
    seq(5, i requires 0 <= i < 5 => FixField(parts[i], FieldRanges[i].0, FieldRanges[i].1))
  }

  /**
   * `fix_cron_expression`: an empty expression, or one that does not split
   * into exactly five whitespace-separated fields, is returned unchanged;
   * otherwise the repaired fields are joined by single spaces.
   */
  function FixExpression(expr: string): string {
    if expr == "" then expr
    else
      var parts := SplitWhitespace(expr);
      if |parts| != 5 then expr else Join(FixParts(parts), " ")
  }

  /** `fix_cron_expression` as the loop that appends each repaired field. */
  method FixCronExpression(expr: string) returns (r: string)
    ensures r == FixExpression(expr)
  {
    if expr == "" {
      return expr;
    }
    var parts := SplitWhitespace(expr);
    if |parts| != 5 {
      return expr;
    }
    var fixedParts: seq<string> := [];
    var i := 0;
    while i < |parts|
      invariant 0 <= i <= 5
      invariant fixedParts == FixParts(parts)[..i]
    {
      var range := FieldRanges[i];
      var fixedPart := FixField(parts[i], range.0, range.1);
      fixedParts := fixedParts + [fixedPart];
      i := i + 1;
    }
    assert fixedParts == FixParts(parts);
    r := Join(fixedParts, " ");
  }

  /** No whitespace anywhere in `s`. */
  predicate NoSpace(s: string) {
    forall j | 0 <= j < |s| :: !IsSpace(s[j])
  }

  /** The decimal rendering of a natural number holds only digits. */
  lemma {:induction false} NatRendering(n: int)
    requires n >= 0
    ensures |IntToString(n)| >= 1 && AllDigits(IntToString(n))
    ensures ',' !in IntToString(n) && '/' !in IntToString(n) && '-' !in IntToString(n)
    ensures NoSpace(IntToString(n)) && IntToString(n) != "*"
    ensures ParseInt(IntToString(n)) == Some(n)
  {
    var d := IntToString(n);
    assert d == NatToString(n);
    IntToStringRoundTrip(n);
    assert IsDigit(d[0]);
  }

  /** Two whitespace-free texts glued by a non-space character. */
  lemma {:induction false} Glue(x: string, c: char, y: string)
    requires NoSpace(x) && NoSpace(y) && !IsSpace(c)
    ensures var r := x + [c] + y;
      NoSpace(r) && r[|x|] == c && |r| >= 1
      && forall d :: d in r <==> d in x || d == c || d in y
  {
    var r := x + [c] + y;
    forall j | 0 <= j < |r|
      ensures !IsSpace(r[j])
    {
      if j < |x| {
        assert r[j] == x[j];
      } else if j > |x| {
        assert r[j] == y[j - |x| - 1];
      }
    }
  }

  /** The text "x-y" a range repair produces is repaired already. */
  lemma {:induction false} RangeText(x: int, y: int, lo: int, hi: int)
    requires 0 <= lo <= x <= y <= hi
    ensures var r := IntToString(x) + "-" + IntToString(y);
      NoSpace(r) && ',' !in r && '/' !in r && '-' in r && r != "*"
      && SplitFirst(r, '-') == Some((IntToString(x), IntToString(y)))
      && FixField(r, lo, hi) == r
  {
    NatRendering(x);
    NatRendering(y);
    var r := IntToString(x) + "-" + IntToString(y);
    Glue(IntToString(x), '-', IntToString(y));
    SplitFirstOfJoin(IntToString(x), IntToString(y), '-');
    assert |r| >= 3;
    assert FixField(r, lo, hi) == FixRange(r, lo, hi);
  }

  /** The text "base/n" a step repair produces, for a base with no comma, slash or whitespace. */
  lemma {:induction false} StepText(base: string, n: int, lo: int, hi: int)
    requires 1 <= n <= hi
    requires ',' !in base && '/' !in base && NoSpace(base)
    ensures var r := base + "/" + IntToString(n);
      NoSpace(r) && ',' !in r && '/' in r && r != "*" && |r| >= 2
      && SplitFirst(r, '/') == Some((base, IntToString(n)))
      && FixField(r, lo, hi) == FixField(base, lo, hi) + "/" + IntToString(n)
  {
    NatRendering(n);
    var r := base + "/" + IntToString(n);
    Glue(base, '/', IntToString(n));
    SplitFirstOfJoin(base, IntToString(n), '/');
    assert FixField(r, lo, hi) == FixStep(r, lo, hi);
  }

  /** The decimal text of an in-range integer is repaired already. */
  lemma {:induction false} SingleText(c: int, lo: int, hi: int)
    requires 0 <= lo <= c <= hi
    ensures FixField(IntToString(c), lo, hi) == IntToString(c)
  {
    NatRendering(c);
    assert FixField(IntToString(c), lo, hi) == FixSingle(IntToString(c), lo, hi);
  }

  /** A single integer is clamped into [lo, hi]; one already inside is kept. */
  lemma {:induction false} SingleValueClamped(field: string, lo: int, hi: int)
    requires 0 <= lo <= hi
    requires field != "*" && ',' !in field && '/' !in field && '-' !in field
    ensures var v := ParseInt(field);
      var r := FixField(field, lo, hi);
      (v.None? ==> r == field)
      && (v.Some? ==> var c := ParseInt(r);
            c.Some? && lo <= c.value <= hi && (lo <= v.value <= hi ==> c.value == v.value))
  {
    assert FixField(field, lo, hi) == FixSingle(field, lo, hi);
    var v := ParseInt(field);
    if v.Some? {
      NatRendering(ClampSingle(v.value, lo, hi));
    }
  }

  /** The ordered, clamped ends of an integer range, as the repair computes them. */
  function RangeEnds(a: int, b: int, lo: int, hi: int): (r: (int, int))
    requires lo <= hi
    ensures lo <= r.0 <= r.1 <= hi
  {
    var x := ClampRange(a, lo, hi);
    var y := ClampRange(b, lo, hi);
    if x > y then (y, x) else (x, y)
  }

  /** An integer range "a-b" comes back as two in-range integers with start <= end. */
  lemma {:induction false} RangeOrdered(field: string, lo: int, hi: int)
    requires 0 <= lo <= hi
    requires field != "*" && ',' !in field && '/' !in field && '-' in field
    ensures var ends := SplitFirst(field, '-').value;
      var r := FixField(field, lo, hi);
      (ParseInt(ends.0).None? || ParseInt(ends.1).None? ==> r == field)
      && (ParseInt(ends.0).Some? && ParseInt(ends.1).Some? ==>
            var halves := SplitFirst(r, '-');
            halves.Some?
            && ParseInt(halves.value.0).Some? && ParseInt(halves.value.1).Some?
            && lo <= ParseInt(halves.value.0).value <= ParseInt(halves.value.1).value <= hi)
  {
    assert FixField(field, lo, hi) == FixRange(field, lo, hi);
    var ends := SplitFirst(field, '-').value;
    var start := ParseInt(ends.0);
    var end := ParseInt(ends.1);
    if start.Some? && end.Some? {
      var e := RangeEnds(start.value, end.value, lo, hi);
      assert FixRange(field, lo, hi) == IntToString(e.0) + "-" + IntToString(e.1);
      RangeText(e.0, e.1, lo, hi);
      NatRendering(e.0);
      NatRendering(e.1);
    }
  }

  /** The part before the first "/" of a comma-free field has neither. */
  lemma BaseShape(field: string, base: string, step: string)
    requires ',' !in field && NoSpace(field) && field == base + ['/'] + step && '/' !in base
    ensures ',' !in base && '/' !in base && NoSpace(base) && NoSpace(step)
  {
    assert forall j | 0 <= j < |base| :: base[j] == field[j];
    assert forall j | 0 <= j < |step| :: step[j] == field[|base| + 1 + j];
  }

  /**
   * A step "base/s" keeps the repaired base before the first "/" and a step
   * clamped into [1, hi] after it; a non-integer step leaves the field as it was.
   */
  lemma {:induction false} StepClamped(field: string, lo: int, hi: int)
    requires SaneRange(lo, hi)
    requires field != "*" && ',' !in field && '/' in field && NoSpace(field)
    ensures var halves := SplitFirst(field, '/').value;
      var r := FixField(field, lo, hi);
      (ParseInt(halves.1).None? ==> r == field)
      && (ParseInt(halves.1).Some? ==>
            var out := SplitFirst(r, '/');
            out.Some? && out.value.0 == FixField(halves.0, lo, hi)
            && ParseInt(out.value.1).Some? && 1 <= ParseInt(out.value.1).value <= hi)
  {
    assert FixField(field, lo, hi) == FixStep(field, lo, hi);
    var halves := SplitFirst(field, '/').value;
    var step := ParseInt(halves.1);
    if step.Some? {
      var n := ClampStep(step.value, hi);
      BaseShape(field, halves.0, halves.1);
      FixedShape(halves.0, lo, hi);
      StepText(FixField(halves.0, lo, hi), n, lo, hi);
      NatRendering(n);
    }
  }

  /** The elements of a whitespace-free comma list are comma-free and whitespace-free. */
  lemma {:induction false} ListElements(field: string)
    requires NoSpace(field)
    ensures forall i | 0 <= i < |Split(field, ',')| ::
      ',' !in Split(field, ',')[i] && NoSpace(Split(field, ',')[i])
    decreases |field|
  {
    var k := IndexOf(field, ',');
    if k.Some? {
      var tail := field[k.value + 1..];
      assert forall j | 0 <= j < |tail| :: tail[j] == field[k.value + 1 + j];
      ListElements(tail);
      var parts := Split(field, ',');
      var rest := Split(tail, ',');
      assert parts == [field[..k.value]] + rest;
      forall i | 0 <= i < |parts|
        ensures ',' !in parts[i] && NoSpace(parts[i])
      {
        if i > 0 {
          assert parts[i] == rest[i - 1];
        } else {
          assert forall j | 0 <= j < k.value :: parts[0][j] == field[j];
        }
      }
    }
  }

  /** The elements of a comma list, as the repair sees them, and what it makes of them. */
  lemma {:induction false} ListParts(field: string, lo: int, hi: int)
    requires SaneRange(lo, hi)
    requires NoSpace(field) && ',' in field
    ensures var values := Split(field, ',');
      var fixedValues := seq(|values|, i requires 0 <= i < |values| => FixField(values[i], lo, hi));
      |values| >= 2
      && FixList(field, lo, hi) == Join(fixedValues, ",")
      && (forall i | 0 <= i < |values| :: |values[i]| < |field| && NoSpace(values[i]) && ',' !in values[i])
      && (forall i | 0 <= i < |values| :: NoSpace(fixedValues[i]) && ',' !in fixedValues[i])
    decreases |field|, 0
  {
    var values := Split(field, ',');
    SplitPartsShorter(field, ',');
    ListElements(field);
    var stripped := seq(|values|, i requires 0 <= i < |values| => FixField(Strip(values[i]), lo, hi));
    var fixedValues := seq(|values|, i requires 0 <= i < |values| => FixField(values[i], lo, hi));
    forall i | 0 <= i < |values|
      ensures stripped[i] == fixedValues[i] && NoSpace(fixedValues[i]) && ',' !in fixedValues[i]
    {
      StripOfWord(values[i]);
      FixedShape(values[i], lo, hi);
    }
    assert stripped == fixedValues;
  }

  /**
   * Repairing adds no whitespace, no comma to a comma-free field, no slash
   * to a field with neither, and never empties a field.
   */
  lemma {:induction false} FixedShape(field: string, lo: int, hi: int)
    requires SaneRange(lo, hi)
    requires NoSpace(field)
    ensures var r := FixField(field, lo, hi);
      NoSpace(r)
      && (',' !in field ==> ',' !in r)
      && (',' !in field && '/' !in field ==> '/' !in r)
      && (field != [] ==> r != [])
    decreases |field|, 1
  {
    if field == "*" {
    } else if ',' in field {
      var values := Split(field, ',');
      ListParts(field, lo, hi);
      var fixedValues := seq(|values|, i requires 0 <= i < |values| => FixField(values[i], lo, hi));
      JoinNoSpace(fixedValues);
    } else if '/' in field {
      assert FixField(field, lo, hi) == FixStep(field, lo, hi);
      var halves := SplitFirst(field, '/').value;
      var step := ParseInt(halves.1);
      if step.Some? {
        BaseShape(field, halves.0, halves.1);
        FixedShape(halves.0, lo, hi);
        StepText(FixField(halves.0, lo, hi), ClampStep(step.value, hi), lo, hi);
      }
    } else if '-' in field {
      assert FixField(field, lo, hi) == FixRange(field, lo, hi);
      var ends := SplitFirst(field, '-').value;
      var start := ParseInt(ends.0);
      var end := ParseInt(ends.1);
      if start.Some? && end.Some? {
        var e := RangeEnds(start.value, end.value, lo, hi);
        assert FixRange(field, lo, hi) == IntToString(e.0) + "-" + IntToString(e.1);
        RangeText(e.0, e.1, lo, hi);
      }
    } else {
      assert FixField(field, lo, hi) == FixSingle(field, lo, hi);
      var v := ParseInt(field);
      if v.Some? {
        NatRendering(ClampSingle(v.value, lo, hi));
      }
    }
  }

  /** A comma list keeps its length: element i of the result is element i repaired. */
  lemma {:induction false} ListRepaired(field: string, lo: int, hi: int)
    requires SaneRange(lo, hi)
    requires field != "*" && ',' in field && NoSpace(field)
    ensures var values := Split(field, ',');
      var out := Split(FixField(field, lo, hi), ',');
      |out| == |values|
      && forall i | 0 <= i < |values| :: out[i] == FixField(values[i], lo, hi)
  {
    var values := Split(field, ',');
    ListParts(field, lo, hi);
    var fixedValues := seq(|values|, i requires 0 <= i < |values| => FixField(values[i], lo, hi));
    SplitJoin(fixedValues, ',');
  }

  /** Joining at least two whitespace-free strings with "," gives a word holding a comma. */
  lemma {:induction false} JoinNoSpace(parts: seq<string>)
    requires |parts| >= 2
    requires forall i | 0 <= i < |parts| :: NoSpace(parts[i])
    ensures IsWord(Join(parts, ",")) && ',' in Join(parts, ",")
    decreases |parts|
  {
    var rest := Join(parts[1..], ",");
    if |parts| == 2 {
      assert rest == parts[1];
    } else {
      JoinNoSpace(parts[1..]);
    }
    Glue(parts[0], ',', rest);
    assert Join(parts, ",") == parts[0] + [','] + rest;
  }

  /** Repairing a repaired field changes nothing, for every bound row of the table. */
  lemma {:induction false} FixFieldIdempotent(field: string, lo: int, hi: int)
    requires SaneRange(lo, hi)
    requires NoSpace(field)
    ensures FixField(FixField(field, lo, hi), lo, hi) == FixField(field, lo, hi)
    decreases |field|, 1
  {
    if field == "*" {
    } else if ',' in field {
      ListIdempotent(field, lo, hi);
    } else if '/' in field {
      StepIdempotent(field, lo, hi);
    } else if '-' in field {
      assert FixField(field, lo, hi) == FixRange(field, lo, hi);
      var ends := SplitFirst(field, '-').value;
      var start := ParseInt(ends.0);
      var end := ParseInt(ends.1);
      if start.Some? && end.Some? {
        var e := RangeEnds(start.value, end.value, lo, hi);
        assert FixRange(field, lo, hi) == IntToString(e.0) + "-" + IntToString(e.1);
        RangeText(e.0, e.1, lo, hi);
      }
    } else {
      assert FixField(field, lo, hi) == FixSingle(field, lo, hi);
      var v := ParseInt(field);
      if v.Some? {
        SingleText(ClampSingle(v.value, lo, hi), lo, hi);
      }
    }
  }

  lemma {:induction false} ListIdempotent(field: string, lo: int, hi: int)
    requires SaneRange(lo, hi)
    requires NoSpace(field) && field != "*" && ',' in field
    ensures FixField(FixField(field, lo, hi), lo, hi) == FixField(field, lo, hi)
    decreases |field|, 0
  {
    var values := Split(field, ',');
    ListParts(field, lo, hi);
    var fixedValues := seq(|values|, i requires 0 <= i < |values| => FixField(values[i], lo, hi));
    var r := Join(fixedValues, ",");
    assert FixField(field, lo, hi) == r;
    JoinNoSpace(fixedValues);
    SplitJoin(fixedValues, ',');
    ListParts(r, lo, hi);
    var again := seq(|fixedValues|, i requires 0 <= i < |fixedValues| => FixField(fixedValues[i], lo, hi));
    assert FixField(r, lo, hi) == Join(again, ",");
    forall i | 0 <= i < |values|
      ensures again[i] == fixedValues[i]
    {
      FixFieldIdempotent(values[i], lo, hi);
    }
    assert again == fixedValues;
  }

  lemma {:induction false} StepIdempotent(field: string, lo: int, hi: int)
    requires SaneRange(lo, hi)
    requires NoSpace(field) && field != "*" && ',' !in field && '/' in field
    ensures FixField(FixField(field, lo, hi), lo, hi) == FixField(field, lo, hi)
    decreases |field|, 0
  {
    assert FixField(field, lo, hi) == FixStep(field, lo, hi);
    var halves := SplitFirst(field, '/').value;
    var step := ParseInt(halves.1);
    if step.Some? {
      var fixedBase := FixField(halves.0, lo, hi);
      var n := ClampStep(step.value, hi);
      BaseShape(field, halves.0, halves.1);
      FixedShape(halves.0, lo, hi);
      StepText(fixedBase, n, lo, hi);
      FixFieldIdempotent(halves.0, lo, hi);
    }
  }

  /**
   * The repaired expression splits back into five fields, field i being
   * the input's field i repaired against range i.
   */
  lemma {:induction false} FixExpressionFields(expr: string)
    requires expr != "" && |SplitWhitespace(expr)| == 5
    ensures SplitWhitespace(FixExpression(expr)) == FixParts(SplitWhitespace(expr))
  {
    var parts := SplitWhitespace(expr);
    SplitWhitespaceWords(expr);
    FixedPartsAreWords(parts);
    SplitWhitespaceJoin(FixParts(parts));
  }

  /** Every repaired field of a split expression is a non-empty word. */
  lemma {:induction false} FixedPartsAreWords(parts: seq<string>)
    requires |parts| == 5
    requires forall i | 0 <= i < 5 :: IsWord(parts[i])
    ensures forall i | 0 <= i < 5 :: IsWord(FixParts(parts)[i])
  {
    FieldRangesSane();
    forall i | 0 <= i < 5
      ensures IsWord(FixParts(parts)[i])
    {
      FixedShape(parts[i], FieldRanges[i].0, FieldRanges[i].1);
    }
  }

  /** Repairing a repaired expression changes nothing. */
  lemma {:induction false} FixExpressionIdempotent(expr: string)
    ensures FixExpression(FixExpression(expr)) == FixExpression(expr)
  {
    if expr != "" && |SplitWhitespace(expr)| == 5 {
      var parts := SplitWhitespace(expr);
      var fixed := FixParts(parts);
      var r := Join(fixed, " ");
      FixExpressionFields(expr);
      SplitWhitespaceWords(expr);
      FieldRangesSane();
      assert r != "" by {
        assert IsWord(fixed[0]);
        assert r == fixed[0] + " " + Join(fixed[1..], " ");
      }
      forall i | 0 <= i < 5
        ensures FixParts(fixed)[i] == fixed[i]
      {
        assert IsWord(parts[i]);
        FixFieldIdempotent(parts[i], FieldRanges[i].0, FieldRanges[i].1);
      }
      assert FixParts(fixed) == fixed;
    }
  }

  /** The five fields of the default schedule, which joined by spaces give it back. */
  const DefaultFields: seq<string> := ["0", "*/6", "*", "*", "*"]

  lemma DefaultCronSplit()
    ensures Join(DefaultFields, " ") == DefaultCron
    ensures SplitWhitespace(DefaultCron) == DefaultFields
  {
    var fields := DefaultFields;
    assert Join(fields[3..], " ") == "* *" by {
      assert fields[3..] == ["*", "*"] && fields[4..] == ["*"];
    }
    assert Join(fields[2..], " ") == "* * *" by {
      assert fields[2..][1..] == fields[3..];
    }
    assert Join(fields[1..], " ") == "*/6 * * *" by {
      assert fields[1..][1..] == fields[2..];
    }
    assert IsWord(fields[0]) && IsWord(fields[1]) && IsWord(fields[2]);
    SplitWhitespaceJoin(fields);
  }

  lemma DefaultFieldsRepaired()
    ensures FixParts(DefaultFields) == DefaultFields
  {
    var zero := IntToString(0);
    var six := IntToString(6);
    assert zero == "0" && six == "6";
    assert "*" + "/" + six == "*/6";
    StepText("*", 6, 0, 23);
    SingleText(0, 0, 59);
  }

  /** The default schedule is already a repaired expression. */
  lemma DefaultCronIsRepaired()
    ensures FixExpression(DefaultCron) == DefaultCron
  {
    DefaultCronSplit();
    DefaultFieldsRepaired();
  }
}
