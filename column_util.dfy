/** Column-name escaping: a name that would be misread as a nested path
    (more than one dot) or that carries stray backticks is wrapped in
    backticks; `RemoveEscapeColumn` drops one such wrapping. */
module ColumnUtil {

  const Tick: char := '`'

  /** `column.startswith("`") and column.endswith("`")`; a lone backtick
      both starts and ends with one. */
  predicate IsWrapped(s: string)
  {
    |s| >= 1 && s[0] == Tick && s[|s| - 1] == Tick
  }

  /** `n` backticks. */
  function Ticks(n: nat): (r: string)
    ensures |r| == n && forall i :: 0 <= i < n ==> r[i] == Tick
  {
    seq(n, _ => Tick)
  }

  /** `s.count(ch)` for a one-character `ch`. */
  function Count(s: string, ch: char): nat
  {
    if |s| == 0 then 0 else (if s[0] == ch then 1 else 0) + Count(s[1..], ch)
  }

  /** A count is at most the length, and zero exactly when `ch` does not
      occur. */
  lemma {:induction false} CountBounds(s: string, ch: char)
    ensures Count(s, ch) <= |s|
    ensures Count(s, ch) == 0 <==> ch !in s
  {
    if |s| > 0 {
      CountBounds(s[1..], ch);
      assert s == [s[0]] + s[1..];
    }
  }

  /** The characters of `s` other than backticks, in order. */
  function NonTicks(s: string): string
  {
    if |s| == 0 then [] else (if s[0] == Tick then [] else [s[0]]) + NonTicks(s[1..])
  }

  /** `ColumnUtil.remove_escape_column`: wrapping the result in one pair of
      backticks gives the wrapped input back; anything else is returned
      as is. `column[1:-1]` of a lone backtick is empty. */
  function RemoveEscapeColumn(column: string): (r: string)
    ensures IsWrapped(column) && |column| >= 2 ==> [Tick] + r + [Tick] == column
    ensures column == [Tick] ==> r == ""
    ensures !IsWrapped(column) ==> r == column
  {
    if IsWrapped(column) then
      (if |column| >= 2 then column[1..|column| - 1] else "")
    else column
  }

  /** `s.lstrip("`")`: `s` is some backticks followed by the result, which
      does not start with one. */
  function {:induction false} TrimLeft(s: string): (r: string)
    ensures |r| <= |s| && s == Ticks(|s| - |r|) + r
    ensures |r| > 0 ==> r[0] != Tick
  {
    if |s| > 0 && s[0] == Tick then
      var r := TrimLeft(s[1..]);
      assert s == [Tick] + s[1..];
      assert Ticks(|s| - |r|) == [Tick] + Ticks(|s| - 1 - |r|);
      r
    else
      assert Ticks(0) == [];
      s
  }

  /** `s.rstrip("`")`: `s` is the result followed by some backticks, and
      the result does not end with one. */
  function {:induction false} TrimRight(s: string): (r: string)
    ensures |r| <= |s| && s == r + Ticks(|s| - |r|)
    ensures |r| > 0 ==> r[|r| - 1] != Tick
  {
    if |s| > 0 && s[|s| - 1] == Tick then
      var r := TrimRight(s[..|s| - 1]);
      assert s == s[..|s| - 1] + [Tick];
      assert Ticks(|s| - |r|) == Ticks(|s| - 1 - |r|) + [Tick];
      r
    else
      assert Ticks(0) == [];
      s
  }

  /** `s.strip("`")`: `s` is the result between two runs of backticks, and
      the result neither starts nor ends with one. */
  function Strip(s: string): (r: string)
    ensures exists a: nat, b: nat :: s == Ticks(a) + r + Ticks(b)
    ensures |r| > 0 ==> r[0] != Tick && r[|r| - 1] != Tick
  {
    var left := TrimLeft(s);
    var r := TrimRight(left);
    assert s == Ticks(|s| - |left|) + r + Ticks(|left| - |r|);
    assert |r| > 0 ==> r[0] == left[0];
    r
  }

  /** `ColumnUtil.escape_column`: the result is backtick-wrapped, or it is
      the input itself, which then has at most one dot and no backtick. */
  function EscapeColumn(column: string): (r: string)
    ensures IsWrapped(r) || (r == column && Count(column, '.') <= 1 && Tick !in column)
  {
    if IsWrapped(column) then column
    else if Count(column, '.') > 1 then [Tick] + column + [Tick]
    else if Tick in column then [Tick] + Strip(column) + [Tick]
    else column
  }

  /*** Properties ***/

  /** Each branch of `escape_column`, as its comments describe it. */
  lemma EscapeColumnCases(column: string)
    ensures IsWrapped(column) ==> EscapeColumn(column) == column
    ensures !IsWrapped(column) && Count(column, '.') > 1 ==> EscapeColumn(column) == [Tick] + column + [Tick]
    ensures !IsWrapped(column) && Count(column, '.') <= 1 && Tick in column ==>
      EscapeColumn(column) == [Tick] + Strip(column) + [Tick]
    ensures !IsWrapped(column) && Count(column, '.') <= 1 && Tick !in column ==> EscapeColumn(column) == column
  {
  }

  /** Escaping an escaped name changes nothing. */
  lemma EscapeIdempotent(column: string)
    ensures EscapeColumn(EscapeColumn(column)) == EscapeColumn(column)
  {
  }

  /** A name without backticks survives escaping and unescaping. */
  lemma RoundTripWithoutBackticks(column: string)
    requires Tick !in column
    ensures RemoveEscapeColumn(EscapeColumn(column)) == column
  {
    var e := EscapeColumn(column);
    if e != column {
      assert e == [Tick] + column + [Tick];
      assert e[1..|e| - 1] == column;
    }
  }

  /** A name with a stray backtick and at most one dot comes back from
      escaping and unescaping with its outer backticks stripped and its
      inner ones kept. */
  lemma RoundTripStrips(column: string)
    requires !IsWrapped(column) && Count(column, '.') <= 1 && Tick in column
    ensures RemoveEscapeColumn(EscapeColumn(column)) == Strip(column)
  {
    var e := EscapeColumn(column);
    assert e == [Tick] + Strip(column) + [Tick];
    assert e[1..|e| - 1] == Strip(column);
  }

  lemma {:induction false} NonTicksAppend(a: string, b: string)
    ensures NonTicks(a + b) == NonTicks(a) + NonTicks(b)
  {
    if |a| > 0 {
      assert (a + b)[1..] == a[1..] + b;
      NonTicksAppend(a[1..], b);
    } else {
      assert a + b == b;
    }
  }

  lemma {:induction false} NonTicksOfTicks(n: nat)
    ensures NonTicks(Ticks(n)) == []
  {
    if n > 0 {
      assert Ticks(n)[1..] == Ticks(n - 1);
      NonTicksOfTicks(n - 1);
    }
  }

  lemma NonTicksWrap(inner: string)
    ensures NonTicks([Tick] + inner + [Tick]) == NonTicks(inner)
  {
    NonTicksAppend([Tick], inner);
    NonTicksAppend([Tick] + inner, [Tick]);
  }

  /** Stripping removes backticks only. */
  lemma NonTicksStrip(column: string)
    ensures NonTicks(Strip(column)) == NonTicks(column)
  {
    var inner := Strip(column);
    var a: nat, b: nat :| column == Ticks(a) + inner + Ticks(b);
    NonTicksAppend(Ticks(a), inner);
    NonTicksAppend(Ticks(a) + inner, Ticks(b));
    NonTicksOfTicks(a);
    NonTicksOfTicks(b);
  }

  /** Escaping only adds or removes backticks: every other character of the
      name, dots included, is kept in order. */
  lemma EscapeKeepsNonTicks(column: string)
    ensures NonTicks(EscapeColumn(column)) == NonTicks(column)
  {
    if IsWrapped(column) {
    } else if Count(column, '.') > 1 {
      NonTicksWrap(column);
    } else if Tick in column {
      NonTicksWrap(Strip(column));
      NonTicksStrip(column);
    }
  }

  /** The `remove_escape_column` cases of the test suite. */
  lemma RemoveEscapeColumnExamples()
    ensures RemoveEscapeColumn("`col`") == "col"
    ensures RemoveEscapeColumn("col") == "col"
    ensures RemoveEscapeColumn("`a.b.c`") == "a.b.c"
    ensures RemoveEscapeColumn("`x`") == "x"
  {
    assert "`col`"[1..4] == "col";
    assert "`a.b.c`"[1..6] == "a.b.c";
    assert "`x`"[1..2] == "x";
  }

  /** The test suite's name without a dot is left alone. */
  lemma EscapeColumnNoDotExample()
    ensures EscapeColumn("col") == "col"
  {
  }

  /** The test suite's name with two dots is wrapped. */
  lemma EscapeColumnTwoDotsExample()
    ensures EscapeColumn("a.b.c") == "`a.b.c`"
  {
    assert Count("a.b.c", '.') == 2 by {
      assert "a.b.c"[1..] == ".b.c" && ".b.c"[1..] == "b.c" && "b.c"[1..] == ".c";
    }
  }

  /** The test suite's name with one dot is left alone. */
  lemma EscapeColumnOneDotExample()
    ensures EscapeColumn("no.dot") == "no.dot"
  {
    assert Count("no.dot", '.') == 1 by {
      assert "no.dot"[1..] == "o.dot" && "o.dot"[1..] == ".dot" && ".dot"[1..] == "dot";
      assert Count("dot", '.') == 0;
    }
  }

  lemma {:induction false} CountSnoc(s: string, x: char, ch: char)
    ensures Count(s + [x], ch) == Count(s, ch) + (if x == ch then 1 else 0)
  {
    if |s| > 0 {
      assert (s + [x])[1..] == s[1..] + [x];
      CountSnoc(s[1..], x, ch);
    } else {
      assert s + [x] == [x];
    }
  }

  /** A name with one stray trailing backtick (the test suite's "already`")
      and at most one dot loses that backtick and is wrapped instead. */
  lemma EscapeTrailingBacktick(name: string)
    requires |name| > 0 && Tick !in name && Count(name, '.') <= 1
    ensures EscapeColumn(name + [Tick]) == [Tick] + name + [Tick]
  {
    var c := name + [Tick];
    assert c[0] == name[0] && c[|c| - 1] == Tick;
    CountSnoc(name, Tick, '.');
    assert TrimLeft(c) == c;
    assert c[..|c| - 1] == name;
    assert TrimRight(name) == name;
    assert Strip(c) == name;
  }
}
