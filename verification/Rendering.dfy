/** The text a canonical form is written as, and why that text can be read back: node lines are
    separated by `|`, a label ends at the first `[`, and each predecessor ends at its `)`. */
module Rendering {
  import opened Text

  /** One node of a form: its label and its sorted predecessors, each a rank and a kind. */
  datatype Line = Line(name: string, incoming: seq<(nat, string)>)

  // ------------------------------------------------------------ list displays

  function TextPairItems(l: seq<(string, string)>): string {
    if l == [] then ""
    else "('" + l[0].0 + "', '" + l[0].1 + "')" + (if |l| == 1 then "" else ", " + TextPairItems(l[1..]))
  }

  function TextPairList(l: seq<(string, string)>): string {
    "[" + TextPairItems(l) + "]"
  }

  function RankPairHead(p: (nat, string)): string {
    "(" + Decimal(p.0) + ", '" + p.1 + "'"
  }

  function RankPairItems(l: seq<(nat, string)>): string {
    if l == [] then ""
    else RankPairHead(l[0]) + ")" + (if |l| == 1 then "" else ", " + RankPairItems(l[1..]))
  }

  function LineText(line: Line): string {
    line.name + ":[" + RankPairItems(line.incoming) + "]"
  }

  function FormText(lines: seq<Line>): string {
    Join(seq(|lines|, i requires 0 <= i < |lines| => LineText(lines[i])), '|')
  }

  // ------------------------------------------------------------ reading it back

  const APPROX: string := "approx:"

  /** Mnemonics and `in:sp`-style labels qualify; the delimiters of the form do not occur in them. */
  predicate PlainLabel(s: string) {
    '[' !in s && '|' !in s && !(APPROX <= s)
  }

  predicate PlainKind(s: string) {
    ')' !in s && '|' !in s
  }

  predicate PlainLine(line: Line) {
    PlainLabel(line.name) && forall p <- line.incoming :: PlainKind(p.1)
  }

  lemma RankPairHeadInjective(p: (nat, string), q: (nat, string))
    requires RankPairHead(p) == RankPairHead(q)
    ensures p == q
  {
    var a, b := Decimal(p.0), Decimal(q.0);
    assert RankPairHead(p)[1..] == a + [','] + (" '" + p.1 + "'");
    assert RankPairHead(q)[1..] == b + [','] + (" '" + q.1 + "'");
    SplitAt(a, b, ',', " '" + p.1 + "'", " '" + q.1 + "'");
    DecimalInjective(p.0, q.0);
    assert p.1 == (" '" + p.1 + "'")[2..][..|p.1|] && q.1 == (" '" + q.1 + "'")[2..][..|q.1|];
    assert |" '" + p.1 + "'"| == |" '" + q.1 + "'"|;
  }

  /** What follows the first closing parenthesis. */
  ghost function RankPairRest(l: seq<(nat, string)>): string
    requires l != []
  {
    if |l| == 1 then "" else ", " + RankPairItems(l[1..])
  }

  lemma RankPairSplit(l: seq<(nat, string)>)
    requires l != [] && PlainKind(l[0].1)
    ensures RankPairItems(l) == RankPairHead(l[0]) + [')'] + RankPairRest(l)
    ensures ')' !in RankPairHead(l[0])
  {}

  lemma RankPairRestInjective(l: seq<(nat, string)>, m: seq<(nat, string)>)
    requires l != [] && m != [] && RankPairRest(l) == RankPairRest(m)
    ensures |l| > 1 <==> |m| > 1
    ensures |l| > 1 ==> RankPairItems(l[1..]) == RankPairItems(m[1..])
  {
    hide RankPairItems;
    if |l| > 1 && |m| > 1 {
      assert RankPairItems(l[1..]) == RankPairRest(l)[2..] && RankPairItems(m[1..]) == RankPairRest(m)[2..];
    }
  }

  lemma {:induction false} RankPairItemsInjective(l: seq<(nat, string)>, m: seq<(nat, string)>)
    requires forall p <- l :: PlainKind(p.1)
    requires forall p <- m :: PlainKind(p.1)
    requires RankPairItems(l) == RankPairItems(m)
    ensures l == m
  {
    SameEmptiness(l, m);
    hide RankPairItems;
    if l != [] {
      assert l[0] in l && m[0] in m;
      RankPairFirst(l, m);
      RankPairRestInjective(l, m);
      hide RankPairRest, PlainKind;
      if |l| > 1 {
        RankPairItemsInjective(l[1..], m[1..]);
      }
      assert l == [l[0]] + l[1..] && m == [m[0]] + m[1..];
    }
  }

  lemma SameEmptiness(l: seq<(nat, string)>, m: seq<(nat, string)>)
    requires RankPairItems(l) == RankPairItems(m)
    ensures l == [] <==> m == []
  {
    assert l != [] ==> RankPairItems(l)[0] == '(';
    assert m != [] ==> RankPairItems(m)[0] == '(';
  }

  lemma RankPairFirst(l: seq<(nat, string)>, m: seq<(nat, string)>)
    requires l != [] && m != [] && PlainKind(l[0].1) && PlainKind(m[0].1) && RankPairItems(l) == RankPairItems(m)
    ensures l[0] == m[0] && RankPairRest(l) == RankPairRest(m)
  {
    RankPairSplit(l);
    RankPairSplit(m);
    hide *;
    SplitAt(RankPairHead(l[0]), RankPairHead(m[0]), ')', RankPairRest(l), RankPairRest(m));
    RankPairHeadInjective(l[0], m[0]);
  }

  lemma LineTextInjective(a: Line, b: Line)
    requires PlainLine(a) && PlainLine(b) && LineText(a) == LineText(b)
    ensures a == b
  {
    var x, y := RankPairItems(a.incoming) + "]", RankPairItems(b.incoming) + "]";
    assert LineText(a) == (a.name + ":") + ['['] + x;
    assert LineText(b) == (b.name + ":") + ['['] + y;
    SplitAt(a.name + ":", b.name + ":", '[', x, y);
    assert a.name == (a.name + ":")[..|a.name + ":"| - 1] && b.name == (b.name + ":")[..|b.name + ":"| - 1];
    assert RankPairItems(a.incoming) == x[..|x| - 1] && RankPairItems(b.incoming) == y[..|y| - 1];
    RankPairItemsInjective(a.incoming, b.incoming);
  }

  lemma {:induction false} RankPairItemsPlain(l: seq<(nat, string)>)
    requires forall p <- l :: PlainKind(p.1)
    ensures '|' !in RankPairItems(l)
  {
    if l != [] {
      RankPairItemsPlain(l[1..]);
      assert '|' !in RankPairHead(l[0]);
    }
  }

  /** A form determines its lines. */
  lemma FormTextInjective(a: seq<Line>, b: seq<Line>)
    requires forall l <- a :: PlainLine(l)
    requires forall l <- b :: PlainLine(l)
    requires FormText(a) == FormText(b)
    ensures a == b
  {
    var s := seq(|a|, i requires 0 <= i < |a| => LineText(a[i]));
    var t := seq(|b|, i requires 0 <= i < |b| => LineText(b[i]));
    forall l: Line | l in a || l in b ensures LineText(l) != "" && '|' !in LineText(l) {
      RankPairItemsPlain(l.incoming);
    }
    JoinInjective(s, t, '|');
    forall i | 0 <= i < |a| ensures a[i] == b[i] {
      assert s[i] == LineText(a[i]) && t[i] == LineText(b[i]);
      LineTextInjective(a[i], b[i]);
    }
  }

  lemma MarkedName(a: string, b: string)
    requires a + ":" == APPROX + b + ":"
    ensures APPROX <= a
  {
    assert a == (a + ":")[..|a|] == (APPROX + b + ":")[..|APPROX + b|] == APPROX + b;
  }

  /** No form starts with the marker of an approximate one. */
  lemma FormNotApprox(a: seq<Line>, b: seq<Line>)
    requires forall l <- a :: PlainLine(l)
    requires forall l <- b :: PlainLine(l)
    ensures FormText(a) != APPROX + FormText(b)
  {
    hide FormText, PlainLine;
    EmptyForm();
    if a != [] && b == [] {
      FormHasBracket(a);
      MarkerHasNone();
      assert FormText(b) == "";
    } else if a != [] && FormText(a) == APPROX + FormText(b) {
      FirstName(a, b);
    }
  }

  lemma FormHasBracket(a: seq<Line>)
    requires a != []
    ensures '[' in FormText(a)
  {
    var tail := FormTail(a);
    hide FormText, FormTail;
    assert FormText(a)[|a[0].name + ":"|] == '[';
  }

  lemma MarkerHasNone()
    ensures '[' !in APPROX + ""
  {}

  /** The first name of a form that starts with the marker starts with it too. */
  lemma FirstName(a: seq<Line>, b: seq<Line>)
    requires a != [] && b != [] && (forall l <- a :: PlainLine(l)) && (forall l <- b :: PlainLine(l))
    ensures FormText(a) != APPROX + FormText(b)
  {
    var u, v := FormTail(a), FormTail(b);
    assert a[0] in a && b[0] in b;
    hide FormText, FormTail;
    if FormText(a) == APPROX + FormText(b) {
      assert APPROX + FormText(b) == (APPROX + b[0].name + ":") + ['['] + v;
      SplitAt(a[0].name + ":", APPROX + b[0].name + ":", '[', u, v);
      MarkedName(a[0].name, b[0].name);
    }
  }

  lemma EmptyForm()
    ensures FormText([]) == ""
  {}

  lemma FormFirst(a: seq<Line>)
    requires a != []
    ensures var parts := seq(|a|, i requires 0 <= i < |a| => LineText(a[i]));
            FormText(a) == LineText(a[0]) + if |a| == 1 then "" else ['|'] + Join(parts[1..], '|')
  {
    hide LineText;
    var parts := seq(|a|, i requires 0 <= i < |a| => LineText(a[i]));
    assert parts[0] == LineText(a[0]);
  }

  lemma LineStart(line: Line, rest: string)
    ensures LineText(line) + rest == (line.name + ":") + ['['] + (RankPairItems(line.incoming) + "]" + rest)
  {
    hide RankPairItems;
    assert line.name + ":[" == (line.name + ":") + ['['];
  }

  /** What follows the first `[` of a form. */
  ghost function FormTail(a: seq<Line>): (tail: string)
    requires a != []
    ensures FormText(a) == (a[0].name + ":") + ['['] + tail
  {
    FormFirst(a);
    var parts := seq(|a|, i requires 0 <= i < |a| => LineText(a[i]));
    var rest := if |a| == 1 then "" else ['|'] + Join(parts[1..], '|');
    hide FormText, LineText, RankPairItems, Join;
    LineStart(a[0], rest);
    RankPairItems(a[0].incoming) + "]" + rest
  }

  // ------------------------------------------------------------ how it looks

  lemma PairsLook(a: (string, string), b: (string, string))
    ensures TextPairList([]) == "[]"
    ensures TextPairList([a]) == "[('" + a.0 + "', '" + a.1 + "')]"
    ensures TextPairList([a, b]) == "[" + (("('" + a.0 + "', '" + a.1 + "')") + (", " + ("('" + b.0 + "', '" + b.1 + "')"))) + "]"
  {
    assert [a, b][1..] == [b];
    assert TextPairItems([b]) == "('" + b.0 + "', '" + b.1 + "')";
    assert TextPairItems([a]) == "('" + a.0 + "', '" + a.1 + "')";
    assert "[" + "('" == "[('" && "')" + "]" == "')]";
  }

  lemma LineLook(name: string, kind: string)
    ensures LineText(Line(name, [])) == name + ":[]"
    ensures LineText(Line(name, [(10, kind)])) == name + ":[(10, '" + kind + "')]"
  {
    assert Decimal(10) == Decimal(1) + "0";
  }

  lemma FormLook(a: Line, b: Line)
    ensures FormText([a]) == LineText(a)
    ensures FormText([a, b]) == LineText(a) + "|" + LineText(b)
  {
    FormFirst([a]);
    FormFirst([a, b]);
    hide LineText, FormText;
    var lines := [a, b];
    assert seq(|lines|, i requires 0 <= i < |lines| => LineText(lines[i]))[1..] == [LineText(b)];
    assert ['|'] == "|";
  }
}
