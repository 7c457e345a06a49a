/**
 * JavaScript strings: sequences of UTF-16 code units, compared the way
 * `Array.prototype.sort` compares them when no comparison function is given,
 * and joined the way `Array.prototype.join` joins them.
 */
module JsStrings {
  import Sorting

  newtype CodeUnit = x: int | 0 <= x < 0x1_0000

  type JsString = seq<CodeUnit>

  const Newline: JsString := [0x0A]

  /** UTF-16 encoding of one Unicode scalar value. */
  function EncodeChar(c: char): (r: JsString)
    ensures 1 <= |r| <= 2
    ensures c as int < 0x1_0000 ==> r == [c as int as CodeUnit]
  {
    var n := c as int;
    if n < 0x1_0000 then [n as CodeUnit]
    else
      var m := n - 0x1_0000;
      [(0xD800 + m / 0x400) as CodeUnit, (0xDC00 + m % 0x400) as CodeUnit]
  }

  /** The JavaScript string holding the text `s` (a string literal of the source). */
  function Utf16(s: string): (r: JsString)
    ensures |r| >= |s|
  {
    if s == [] then [] else EncodeChar(s[0]) + Utf16(s[1..])
  }

  /**
   * `a` sorts no later than `b`: `a` is a prefix of `b`, or at the first code
   * unit where they differ, `a`'s is the smaller.
   */
  predicate LessEq(a: JsString, b: JsString) {
    if a == [] then true
    else if b == [] then false
    else if a[0] != b[0] then a[0] < b[0]
    else LessEq(a[1..], b[1..])
  }

  lemma {:induction false} LessEqTotal(a: JsString, b: JsString)
    ensures LessEq(a, b) || LessEq(b, a)
  {
    if a != [] && b != [] && a[0] == b[0] {
      LessEqTotal(a[1..], b[1..]);
    }
  }

  lemma {:induction false} LessEqTransitive(a: JsString, b: JsString, c: JsString)
    requires LessEq(a, b) && LessEq(b, c)
    ensures LessEq(a, c)
  {
    if a != [] && a[0] == b[0] && b[0] == c[0] {
      LessEqTransitive(a[1..], b[1..], c[1..]);
    }
  }

  lemma {:induction false} LessEqAntisymmetric(a: JsString, b: JsString)
    requires LessEq(a, b) && LessEq(b, a)
    ensures a == b
  {
    if a != [] && b != [] {
      LessEqAntisymmetric(a[1..], b[1..]);
      assert a == [a[0]] + a[1..];
      assert b == [b[0]] + b[1..];
    }
  }

  /** Code-unit order is a total order, so sorting by it has a unique outcome. */
  lemma LessEqIsTotalOrder()
    ensures Sorting.TotalPreorder(LessEq)
    ensures Sorting.Antisymmetric(LessEq)
  {
    forall a, b ensures LessEq(a, b) || LessEq(b, a) {
      LessEqTotal(a, b);
    }
    forall a, b, c | LessEq(a, b) && LessEq(b, c) ensures LessEq(a, c) {
      LessEqTransitive(a, b, c);
    }
    forall a, b | LessEq(a, b) && LessEq(b, a) ensures a == b {
      LessEqAntisymmetric(a, b);
    }
  }

  /** `lines.join(sep)`: the lines with `sep` between neighbours and nowhere else. */
  function Join(lines: seq<JsString>, sep: JsString): (r: JsString)
    ensures |lines| == 1 ==> r == lines[0]
    ensures lines == [] ==> r == []
  {
    if lines == [] then []
    else if |lines| == 1 then lines[0]
    else lines[0] + sep + Join(lines[1..], sep)
  }

  /** Appending a line appends one separator and that line: there is no trailing separator. */
  lemma {:induction false} JoinSnoc(lines: seq<JsString>, line: JsString, sep: JsString)
    requires lines != []
    ensures Join(lines + [line], sep) == Join(lines, sep) + sep + line
  {
    if |lines| == 1 {
      assert (lines + [line])[1..] == [line];
    } else {
      assert (lines + [line])[1..] == lines[1..] + [line];
      JoinSnoc(lines[1..], line, sep);
    }
  }

  /** The joined text is as long as the lines plus one separator between each two of them. */
  lemma {:induction false} JoinLength(lines: seq<JsString>, sep: JsString)
    requires lines != []
    ensures |Join(lines, sep)| == TotalLength(lines) + (|lines| - 1) * |sep|
  {
    if |lines| > 1 {
      JoinLength(lines[1..], sep);
    }
  }

  /** The joined text starts with the first line and ends with the last one: no separator leads or trails. */
  lemma {:induction false} JoinEnds(lines: seq<JsString>, sep: JsString)
    requires lines != []
    ensures lines[0] <= Join(lines, sep)
    ensures var r, last := Join(lines, sep), lines[|lines| - 1];
      |last| <= |r| && r[|r| - |last|..] == last
  {
    if |lines| > 1 {
      JoinEnds(lines[1..], sep);
      var tail := Join(lines[1..], sep);
      var last := lines[|lines| - 1];
      assert lines[1..][|lines[1..]| - 1] == last;
      var r := lines[0] + sep + tail;
      assert r[|r| - |last|..] == tail[|tail| - |last|..];
    }
  }

  /** Where line `i` starts in `lines` joined by `sep`: after the lines before it and one separator each. */
  function Start(lines: seq<JsString>, i: nat, sep: JsString): nat
    requires i <= |lines|
  {
    TotalLength(lines[..i]) + i * |sep|
  }

  /** Every line of `lines` stands in `r` at its start offset. */
  ghost predicate LinesAt(r: JsString, lines: seq<JsString>, sep: JsString) {
    forall i | 0 <= i < |lines| ::
      Start(lines, i, sep) + |lines[i]| <= |r| &&
      r[Start(lines, i, sep)..Start(lines, i, sep) + |lines[i]|] == lines[i]
  }

  /** Right before every line but the first, `r` holds one separator. */
  ghost predicate SeparatorsAt(r: JsString, lines: seq<JsString>, sep: JsString) {
    forall i | 0 < i < |lines| ::
      |sep| <= Start(lines, i, sep) <= |r| &&
      r[Start(lines, i, sep) - |sep|..Start(lines, i, sep)] == sep
  }

  /**
   * `r` is `lines` separated by `sep`: empty for no lines; otherwise it starts
   * with the first line, ends with the last, holds every line at its start
   * offset with one separator right before every line but the first, and has
   * no other code unit.
   */
  ghost predicate SeparatedBy(r: JsString, lines: seq<JsString>, sep: JsString) {
    if lines == [] then r == []
    else
      var last := lines[|lines| - 1];
      && lines[0] <= r
      && |last| <= |r| && r[|r| - |last|..] == last
      && |r| == TotalLength(lines) + (|lines| - 1) * |sep|
      && LinesAt(r, lines, sep)
      && SeparatorsAt(r, lines, sep)
  }

  lemma TotalLengthSnoc(lines: seq<JsString>, line: JsString)
    ensures TotalLength(lines + [line]) == TotalLength(lines) + |line|
  {
    if lines != [] {
      assert (lines + [line])[1..] == lines[1..] + [line];
      TotalLengthSnoc(lines[1..], line);
    }
  }

  /** A slice that ends inside `a` is the same slice of `a + b`. */
  lemma SliceOfPrefix(a: JsString, b: JsString, lo: nat, hi: nat)
    requires lo <= hi <= |a|
    ensures (a + b)[lo..hi] == a[lo..hi]
  {
  }

  /** Appending a line moves no earlier start, and the new line starts after one more separator. */
  lemma StartSnoc(init: seq<JsString>, last: JsString, sep: JsString, i: nat)
    requires init != [] && i <= |init|
    ensures i < |init| ==> Start(init + [last], i, sep) == Start(init, i, sep)
    ensures i == |init| ==>
      Start(init + [last], i, sep) == TotalLength(init) + (|init| - 1) * |sep| + |sep|
  {
    assert (init + [last])[..i] == init[..i];
    assert init[..|init|] == init;
    assert (|init| - 1) * |sep| + |sep| == |init| * |sep|;
  }

  /** One step of `JoinPlacement` for a line: it stays put, or is the new last line. */
  lemma LineAtSnoc(init: seq<JsString>, last: JsString, sep: JsString, i: nat)
    requires init != [] && i <= |init|
    requires LinesAt(Join(init, sep), init, sep)
    requires |Join(init, sep)| == TotalLength(init) + (|init| - 1) * |sep|
    ensures var lines, r := init + [last], Join(init, sep) + sep + last;
      Start(lines, i, sep) + |lines[i]| <= |r| &&
      r[Start(lines, i, sep)..Start(lines, i, sep) + |lines[i]|] == lines[i]
  {
    var ri := Join(init, sep);
    StartSnoc(init, last, sep, i);
    if i < |init| {
      SliceOfPrefix(ri, sep + last, Start(init, i, sep), Start(init, i, sep) + |init[i]|);
      assert ri + sep + last == ri + (sep + last);
    } else {
      assert (ri + sep + last)[|ri| + |sep|..] == last;
    }
  }

  /** One step of `JoinPlacement` for a separator: it stays put, or is the one before the new line. */
  lemma SeparatorAtSnoc(init: seq<JsString>, last: JsString, sep: JsString, i: nat)
    requires init != [] && 0 < i <= |init|
    requires SeparatorsAt(Join(init, sep), init, sep)
    requires |Join(init, sep)| == TotalLength(init) + (|init| - 1) * |sep|
    ensures var lines, r := init + [last], Join(init, sep) + sep + last;
      |sep| <= Start(lines, i, sep) <= |r| &&
      r[Start(lines, i, sep) - |sep|..Start(lines, i, sep)] == sep
  {
    var ri := Join(init, sep);
    StartSnoc(init, last, sep, i);
    if i < |init| {
      SliceOfPrefix(ri, sep + last, Start(init, i, sep) - |sep|, Start(init, i, sep));
      assert ri + sep + last == ri + (sep + last);
    } else {
      assert (ri + sep + last)[|ri|..|ri| + |sep|] == sep;
    }
  }

  /** Appending a line and a separator keeps every line in place and adds the new one. */
  lemma LinesAtSnoc(init: seq<JsString>, last: JsString, sep: JsString)
    requires init != []
    requires LinesAt(Join(init, sep), init, sep)
    requires |Join(init, sep)| == TotalLength(init) + (|init| - 1) * |sep|
    ensures LinesAt(Join(init, sep) + sep + last, init + [last], sep)
  {
    forall i | 0 <= i < |init| + 1
      ensures var lines, r := init + [last], Join(init, sep) + sep + last;
        Start(lines, i, sep) + |lines[i]| <= |r| &&
        r[Start(lines, i, sep)..Start(lines, i, sep) + |lines[i]|] == lines[i]
    {
      LineAtSnoc(init, last, sep, i);
    }
  }

  /** Appending a line and a separator keeps every separator in place and adds the new one. */
  lemma SeparatorsAtSnoc(init: seq<JsString>, last: JsString, sep: JsString)
    requires init != []
    requires SeparatorsAt(Join(init, sep), init, sep)
    requires |Join(init, sep)| == TotalLength(init) + (|init| - 1) * |sep|
    ensures SeparatorsAt(Join(init, sep) + sep + last, init + [last], sep)
  {
    forall i | 0 < i < |init| + 1
      ensures var lines, r := init + [last], Join(init, sep) + sep + last;
        |sep| <= Start(lines, i, sep) <= |r| &&
        r[Start(lines, i, sep) - |sep|..Start(lines, i, sep)] == sep
    {
      SeparatorAtSnoc(init, last, sep, i);
    }
  }

  /** The lines and the separators of `Join` stand where `Start` says. */
  lemma {:induction false} JoinPlacement(lines: seq<JsString>, sep: JsString)
    requires lines != []
    ensures LinesAt(Join(lines, sep), lines, sep)
    ensures SeparatorsAt(Join(lines, sep), lines, sep)
  {
    var n := |lines|;
    if n == 1 {
      assert lines[..0] == [];
    } else {
      var init, last := lines[..n - 1], lines[n - 1];
      assert lines == init + [last];
      JoinSnoc(init, last, sep);
      JoinPlacement(init, sep);
      JoinLength(init, sep);
      LinesAtSnoc(init, last, sep);
      SeparatorsAtSnoc(init, last, sep);
    }
  }

  lemma JoinSeparated(lines: seq<JsString>, sep: JsString)
    ensures SeparatedBy(Join(lines, sep), lines, sep)
  {
    if lines != [] {
      JoinEnds(lines, sep);
      JoinLength(lines, sep);
      JoinPlacement(lines, sep);
    }
  }

  function TotalLength(lines: seq<JsString>): nat {
    if lines == [] then 0 else |lines[0]| + TotalLength(lines[1..])
  }
}
