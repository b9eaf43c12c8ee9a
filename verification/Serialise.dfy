/**
  The string form of a component (icalcomponent_as_ical_string_r) and the comparison of two
  VTIMEZONEs by their strings (icalcomponent_compare_vtimezones).

  The string of a single property is a parameter here, and the theorems state what they need
  of it for the properties of the trees at hand; FoldedFaithful says when the strings that
  icalproperty.c writes meet that.
 */
module Serialise {
  import opened Wrappers
  import opened Sequences
  import opened Fold
  import opened Tree
  import opened Kinds

  /** The strings of the properties, one after the other. */
  function Lines(props: seq<PropertyValue>, line: PropertyValue -> string): string {
    if props == [] then "" else line(props[0]) + Lines(props[1..], line)
  }

  function Footer(kind: ComponentKind): string {
    "END:" + (KindName(kind) + CRLF)
  }

  function Header(kind: ComponentKind): string {
    "BEGIN:" + (KindName(kind) + CRLF)
  }

  function AsString(t: Tree, line: PropertyValue -> string): string
    decreases t, 1
  {
    Header(t.kind) + (Lines(t.props, line) + (AllAsString(t.children, line) + Footer(t.kind)))
  }

  function AllAsString(ts: seq<Tree>, line: PropertyValue -> string): string
    decreases ts, 0
  {
    if ts == [] then "" else AsString(ts[0], line) + AllAsString(ts[1..], line)
  }

  // ------------------------------------------------------------------- its layout

  /** One line of the text, as long as no property is folded. */
  datatype Token = Begin(kind: ComponentKind) | PropertyLine(p: PropertyValue) | End(kind: ComponentKind)

  function TokenText(token: Token, line: PropertyValue -> string): string {
    match token
    case Begin(kind) => "BEGIN:" + KindName(kind) + "\r\n"
    case PropertyLine(p) => line(p)
    case End(kind) => "END:" + KindName(kind) + "\r\n"
  }

  function TokensText(tokens: seq<Token>, line: PropertyValue -> string): string {
    if tokens == [] then "" else TokenText(tokens[0], line) + TokensText(tokens[1..], line)
  }

  /**
    Reading lines with a stack of open components, the innermost last: BEGIN opens one, the
    properties come before its children, and END closes it if it is of the kind; the text ends
    where the outermost one is closed.
   */
  function ReadTokens(tokens: seq<Token>, open: seq<Tree>): Option<Tree>
    decreases |tokens|
  {
    if tokens == [] then None
    else
      var rest := tokens[1..];
      match tokens[0]
      case Begin(kind) => ReadTokens(rest, open + [Node(kind, [], [])])
      case PropertyLine(p) =>
        if open == [] || open[|open| - 1].children != [] then None
        else ReadTokens(rest, WithInnermost(open, open[|open| - 1].(props := open[|open| - 1].props + [p])))
      case End(kind) =>
        if open == [] || open[|open| - 1].kind != kind then None
        else if |open| == 1 then (if rest == [] then Some(open[0]) else None)
        else ReadTokens(rest, WithClosed(open[..|open| - 1], open[|open| - 1]))
  }

  function WithInnermost(open: seq<Tree>, t: Tree): seq<Tree>
    requires open != []
  {
    open[|open| - 1 := t]
  }

  /** The innermost open component gets a child. */
  function WithClosed(open: seq<Tree>, child: Tree): seq<Tree>
    requires open != []
  {
    var last := open[|open| - 1];
    WithInnermost(open, last.(children := last.children + [child]))
  }

  /** The lines of a component. */
  function Tokens(t: Tree): seq<Token>
    decreases t, 1
  {
    [Begin(t.kind)] + (PropertyTokens(t.props) + (AllTokens(t.children) + [End(t.kind)]))
  }

  function PropertyTokens(props: seq<PropertyValue>): seq<Token> {
    if props == [] then [] else [PropertyLine(props[0])] + PropertyTokens(props[1..])
  }

  function AllTokens(ts: seq<Tree>): seq<Token>
    decreases ts, 0
  {
    if ts == [] then [] else Tokens(ts[0]) + AllTokens(ts[1..])
  }

  lemma {:induction false} TokensTextConcat(a: seq<Token>, b: seq<Token>, line: PropertyValue -> string)
    ensures TokensText(a + b, line) == TokensText(a, line) + TokensText(b, line)
  {
    if a == [] {
      assert a + b == b;
    } else {
      assert (a + b)[1..] == a[1..] + b;
      TokensTextConcat(a[1..], b, line);
      Assoc(TokenText(a[0], line), TokensText(a[1..], line), TokensText(b, line));
    }
  }

  lemma OneTokenText(token: Token, line: PropertyValue -> string)
    ensures TokensText([token], line) == TokenText(token, line)
  {
    assert [token][1..] == [];
    NothingAfter(TokenText(token, line));
  }

  lemma {:induction false} LinesAreTokens(props: seq<PropertyValue>, line: PropertyValue -> string)
    ensures Lines(props, line) == TokensText(PropertyTokens(props), line)
  {
    if props != [] {
      LinesAreTokens(props[1..], line);
      assert PropertyTokens(props)[1..] == PropertyTokens(props[1..]);
    }
  }

  /** The text of a component is that of its lines. */
  lemma {:induction false} TextOfTokens(t: Tree, line: PropertyValue -> string)
    ensures AsString(t, line) == TokensText(Tokens(t), line)
    decreases t, 1
  {
    var props, children, end := PropertyTokens(t.props), AllTokens(t.children), [End(t.kind)];
    LinesAreTokens(t.props, line);
    TextOfAllTokens(t.children, line);
    OneTokenText(Begin(t.kind), line);
    OneTokenText(End(t.kind), line);
    Assoc("BEGIN:", KindName(t.kind), "\r\n");
    Assoc("END:", KindName(t.kind), "\r\n");
    TokensTextConcat([Begin(t.kind)], props + (children + end), line);
    TokensTextConcat(props, children + end, line);
    TokensTextConcat(children, end, line);
  }

  lemma {:induction false} TextOfAllTokens(ts: seq<Tree>, line: PropertyValue -> string)
    ensures AllAsString(ts, line) == TokensText(AllTokens(ts), line)
    decreases ts, 0
  {
    if ts != [] {
      TextOfTokens(ts[0], line);
      TextOfAllTokens(ts[1..], line);
      TokensTextConcat(Tokens(ts[0]), AllTokens(ts[1..]), line);
    }
  }

  /** The properties go to the innermost open component. */
  lemma {:induction false} ReadProperties(props: seq<PropertyValue>, more: seq<Token>, open: seq<Tree>, t: Tree)
    requires t.children == []
    ensures ReadTokens(PropertyTokens(props) + more, open + [t])
         == ReadTokens(more, open + [t.(props := t.props + props)])
    decreases |props|
  {
    if props == [] {
      assert [] + more == more && t.props + [] == t.props;
    } else {
      var t' := t.(props := t.props + [props[0]]);
      assert (PropertyTokens(props) + more)[1..] == PropertyTokens(props[1..]) + more;
      assert WithInnermost(open + [t], t') == open + [t'];
      ReadProperties(props[1..], more, open, t');
      assert t'.props + props[1..] == t.props + props;
    }
  }

  /** A component within another one is read as a child of that. */
  lemma {:induction false} ReadChild(c: Tree, more: seq<Token>, open: seq<Tree>, t: Tree)
    ensures ReadTokens(Tokens(c) + more, open + [t])
         == ReadTokens(more, open + [t.(children := t.children + [c])])
    decreases c, 1
  {
    ReadUpToEnd(c, more, open + [t]);
    var rest := [End(c.kind)] + more;
    assert rest[1..] == more;
    assert (open + [t] + [c])[..|open| + 1] == open + [t];
    assert WithClosed(open + [t], c) == open + [t.(children := t.children + [c])];
  }

  /** All of it but the END line. */
  lemma {:induction false} ReadUpToEnd(c: Tree, more: seq<Token>, open: seq<Tree>)
    ensures ReadTokens(Tokens(c) + more, open) == ReadTokens([End(c.kind)] + more, open + [c])
    decreases c, 0
  {
    var end := [End(c.kind)] + more;
    var children := AllTokens(c.children) + end;
    Assoc([Begin(c.kind)], PropertyTokens(c.props) + (AllTokens(c.children) + [End(c.kind)]), more);
    Assoc(PropertyTokens(c.props), AllTokens(c.children) + [End(c.kind)], more);
    Assoc(AllTokens(c.children), [End(c.kind)], more);
    var all := [Begin(c.kind)] + (PropertyTokens(c.props) + children);
    assert all[1..] == PropertyTokens(c.props) + children;
    ReadProperties(c.props, children, open, Node(c.kind, [], []));
    assert [] + c.props == c.props;
    ReadChildren(c.children, end, open, Node(c.kind, c.props, []));
    assert [] + c.children == c.children;
  }

  lemma {:induction false} ReadChildren(cs: seq<Tree>, more: seq<Token>, open: seq<Tree>, t: Tree)
    ensures ReadTokens(AllTokens(cs) + more, open + [t])
         == ReadTokens(more, open + [t.(children := t.children + cs)])
    decreases cs, 2
  {
    if cs == [] {
      assert [] + more == more && t.children + [] == t.children;
    } else {
      Assoc(Tokens(cs[0]), AllTokens(cs[1..]), more);
      ReadChild(cs[0], AllTokens(cs[1..]) + more, open, t);
      ReadChildren(cs[1..], more, open, t.(children := t.children + [cs[0]]));
      assert (t.children + [cs[0]]) + cs[1..] == t.children + cs;
    }
  }

  /** The lines of a component are read as the component. */
  lemma ReadBack(t: Tree)
    ensures ReadTokens(Tokens(t), []) == Some(t)
  {
    ReadUpToEnd(t, [], []);
    NothingAfter(Tokens(t));
    assert ([End(t.kind)] + [])[1..] == [] && [] + [t] == [t];
  }

  // --------------------------------------------------------------- reading it back

  /** One of the strings starts with the other one. */
  predicate Comparable(a: string, b: string) {
    a <= b || b <= a
  }

  /** Neither a line of the given properties nor a line with a keyword can begin like this. */
  predicate NoOpening(s: string, line: PropertyValue -> string, props: set<PropertyValue>) {
    && !Comparable(s, "BEGIN:") && !Comparable(s, "END:")
    && forall p <- props :: !Comparable(s, line(p))
  }

  /**
    What the comparison needs of the printing of the given properties: no line is mistaken
    for a BEGIN: or END: line, and where one starts with another one, no line can begin with
    what is left.
   */
  predicate Faithful(line: PropertyValue -> string, props: set<PropertyValue>) {
    && (forall p <- props :: !Comparable(line(p), "BEGIN:") && !Comparable(line(p), "END:"))
    && (forall p <- props, q <- props ::
        p != q && line(p) <= line(q) ==> NoOpening(line(q)[|line(p)|..], line, props))
  }

  function PropsOf(t: Tree): set<PropertyValue>
    decreases t, 1
  {
    (set p <- t.props) + PropsOfAll(t.children)
  }

  function PropsOfAll(ts: seq<Tree>): set<PropertyValue>
    decreases ts, 0
  {
    if ts == [] then {} else PropsOf(ts[0]) + PropsOfAll(ts[1..])
  }

  lemma Same(a: string, x: string, b: string, y: string)
    requires a + x == b + y && |a| == |b|
    ensures a == b && x == y
  {
    assert a == (a + x)[..|a|] && b == (b + y)[..|b|];
    assert x == (a + x)[|a|..] && y == (b + y)[|b|..];
  }

  /** Two starts of one text. */
  lemma StartsAlike(a: string, x: string, b: string, y: string)
    requires a + x == b + y
    ensures Comparable(a, b)
  {
    assert forall i :: 0 <= i < |a| ==> a[i] == (a + x)[i];
    assert forall i :: 0 <= i < |b| ==> b[i] == (b + y)[i];
  }

  /** What is left of the longer one starts the text that follows the shorter one. */
  lemma RestStarts(a: string, x: string, b: string, y: string)
    requires a + x == b + y && a <= b
    ensures x == b[|a|..] + y
  {
    assert b == a + b[|a|..];
    Assoc(a, b[|a|..], y);
    Same(a, x, a, b[|a|..] + y);
  }

  predicate Among(ps: seq<PropertyValue>, all: set<PropertyValue>) {
    forall p <- ps :: p in all
  }

  predicate KeywordFirst(s: string) {
    "BEGIN:" <= s || "END:" <= s
  }

  /** What the text of the properties and what follows them begins with. */
  function Opening(ps: seq<PropertyValue>, x: string, line: PropertyValue -> string): string {
    if ps != [] then line(ps[0]) else if "BEGIN:" <= x then "BEGIN:" else "END:"
  }

  lemma OpeningFirst(ps: seq<PropertyValue>, x: string, line: PropertyValue -> string)
    requires KeywordFirst(x)
    ensures Opening(ps, x, line) <= Lines(ps, line) + x
  {
    if ps == [] {
      assert Lines(ps, line) + x == x;
    } else {
      Assoc(line(ps[0]), Lines(ps[1..], line), x);
    }
  }

  /** What is left of the longer of two lines, and what the text goes on with after the shorter one. */
  lemma LeftAndOpening(a: string, ps: seq<PropertyValue>, x: string, b: string, y: string,
      line: PropertyValue -> string)
    requires a + (Lines(ps, line) + x) == b + y && a <= b && KeywordFirst(x)
    ensures Comparable(b[|a|..], Opening(ps, x, line))
  {
    var opening, text := Opening(ps, x, line), Lines(ps, line) + x;
    RestStarts(a, text, b, y);
    OpeningFirst(ps, x, line);
    TakeDrop(text, |opening|);
    StartsAlike(b[|a|..], y, opening, text[|opening|..]);
  }

  lemma SameOrNoOpening(p: PropertyValue, q: PropertyValue, line: PropertyValue -> string, all: set<PropertyValue>)
    requires Faithful(line, all) && p in all && q in all && line(p) <= line(q)
    ensures p == q || NoOpening(line(q)[|line(p)|..], line, all)
  {
  }

  /** Of two lines at the start of one text, neither is longer when an opening follows the shorter one. */
  lemma NotLonger(p: PropertyValue, ps: seq<PropertyValue>, x: string, q: PropertyValue, y: string,
      line: PropertyValue -> string, all: set<PropertyValue>)
    requires line(p) + (Lines(ps, line) + x) == line(q) + y
    requires Faithful(line, all) && p in all && q in all && Among(ps, all) && KeywordFirst(x)
    requires line(p) <= line(q)
    ensures p == q
  {
    LeftAndOpening(line(p), ps, x, line(q), y, line);
    SameOrNoOpening(p, q, line, all);
  }

  lemma SplitLine(p: PropertyValue, ps: seq<PropertyValue>, x: string, q: PropertyValue, qs: seq<PropertyValue>,
      y: string, line: PropertyValue -> string, all: set<PropertyValue>)
    requires line(p) + (Lines(ps, line) + x) == line(q) + (Lines(qs, line) + y)
    requires Faithful(line, all) && p in all && q in all && Among(ps, all) && Among(qs, all)
    requires KeywordFirst(x) && KeywordFirst(y)
    ensures p == q && Lines(ps, line) + x == Lines(qs, line) + y
  {
    StartsAlike(line(p), Lines(ps, line) + x, line(q), Lines(qs, line) + y);
    if line(p) <= line(q) {
      NotLonger(p, ps, x, q, Lines(qs, line) + y, line, all);
    } else {
      NotLonger(q, qs, y, p, Lines(ps, line) + x, line, all);
    }
    Same(line(p), Lines(ps, line) + x, line(q), Lines(qs, line) + y);
  }

  predicate NoReturn(s: string) {
    forall c <- s :: c != '\r'
  }

  lemma KindNameNoReturn(kind: ComponentKind)
    ensures NoReturn(KindName(kind))
  {
  }

  lemma NameNotLonger(a: string, x: string, b: string, y: string)
    requires a + (CRLF + x) == b + (CRLF + y) && NoReturn(b)
    ensures |a| >= |b|
  {
    if |a| < |b| {
      ReturnInside(a, x, b, y);
    }
  }

  lemma ReturnInside(a: string, x: string, b: string, y: string)
    requires a + (CRLF + x) == b + (CRLF + y) && |a| < |b|
    ensures !NoReturn(b)
  {
    assert (a + (CRLF + x))[|a|] == '\r';
    assert (b + (CRLF + y))[|a|] == b[|a|];
    assert b[|a|] in b;
  }

  lemma KindNameInjective(a: ComponentKind, b: ComponentKind)
    requires KindName(a) == KindName(b)
    ensures a == b
  {
  }

  lemma SplitName(a: ComponentKind, x: string, b: ComponentKind, y: string, keyword: string)
    requires (keyword + (KindName(a) + CRLF)) + x == (keyword + (KindName(b) + CRLF)) + y
    ensures a == b && x == y
  {
    var m, n := KindName(a), KindName(b);
    assert (keyword + (m + CRLF)) + x == keyword + (m + (CRLF + x));
    assert (keyword + (n + CRLF)) + y == keyword + (n + (CRLF + y));
    Same(keyword, m + (CRLF + x), keyword, n + (CRLF + y));
    KindNameNoReturn(a);
    KindNameNoReturn(b);
    NameNotLonger(m, x, n, y);
    NameNotLonger(n, y, m, x);
    Same(m, CRLF + x, n, CRLF + y);
    KindNameInjective(a, b);
    Same(CRLF, x, CRLF, y);
  }

  /** Two lists of properties followed by a line with a keyword. */
  lemma {:induction false} SplitLines(ps: seq<PropertyValue>, x: string, qs: seq<PropertyValue>, y: string,
      line: PropertyValue -> string, all: set<PropertyValue>)
    requires Lines(ps, line) + x == Lines(qs, line) + y
    requires Faithful(line, all) && Among(ps, all) && Among(qs, all)
    requires KeywordFirst(x) && KeywordFirst(y)
    ensures ps == qs && x == y
    decreases |ps|
  {
    if ps == [] || qs == [] {
      assert "" + x == x && "" + y == y;
      if ps != [] {
        LineFirst(ps, x, y, line, all);
      } else if qs != [] {
        LineFirst(qs, y, x, line, all);
      }
    } else {
      Assoc(line(ps[0]), Lines(ps[1..], line), x);
      Assoc(line(qs[0]), Lines(qs[1..], line), y);
      SplitLine(ps[0], ps[1..], x, qs[0], qs[1..], y, line, all);
      SplitLines(ps[1..], x, qs[1..], y, line, all);
      assert ps == [ps[0]] + ps[1..] && qs == [qs[0]] + qs[1..];
    }
  }

  /** A line is not mistaken for a keyword. */
  lemma LineFirst(ps: seq<PropertyValue>, x: string, y: string, line: PropertyValue -> string,
      all: set<PropertyValue>)
    requires ps != [] && Faithful(line, all) && Among(ps, all) && KeywordFirst(y)
    ensures Lines(ps, line) + x != y
  {
    var rest := Lines(ps[1..], line) + x;
    Assoc(line(ps[0]), Lines(ps[1..], line), x);
    StartComparable(line(ps[0]), rest, "BEGIN:");
    StartComparable(line(ps[0]), rest, "END:");
  }

  lemma StartComparable(a: string, x: string, word: string)
    ensures word <= a + x ==> Comparable(a, word)
  {
    if word <= a + x {
      TakeDrop(a + x, |word|);
      StartsAlike(a, x, word, (a + x)[|word|..]);
    }
  }

  /** The keyword a text starts with. */
  predicate StartsWith(s: string, keyword: string) {
    keyword <= s
  }

  lemma BeginsWithBegin(t: Tree, line: PropertyValue -> string, x: string)
    ensures StartsWith(AsString(t, line) + x, "BEGIN:") && !StartsWith(AsString(t, line) + x, "END:")
  {
    var rest := Lines(t.props, line) + (AllAsString(t.children, line) + Footer(t.kind));
    Assoc(Header(t.kind), rest, x);
    Assoc("BEGIN:", KindName(t.kind) + CRLF, rest + x);
    StartsDifferently((KindName(t.kind) + CRLF) + (rest + x));
  }

  lemma StartsDifferently(s: string)
    ensures StartsWith("BEGIN:" + s, "BEGIN:") && !StartsWith("BEGIN:" + s, "END:")
  {
    assert ("BEGIN:" + s)[0] == 'B';
  }

  lemma BeginsWithKeyword(ts: seq<Tree>, line: PropertyValue -> string, x: string)
    requires StartsWith(x, "END:")
    ensures StartsWith(AllAsString(ts, line) + x, if ts == [] then "END:" else "BEGIN:")
  {
    if ts == [] {
      assert AllAsString(ts, line) + x == x;
    } else {
      BeginsWithBegin(ts[0], line, AllAsString(ts[1..], line) + x);
      Assoc(AsString(ts[0], line), AllAsString(ts[1..], line), x);
    }
  }

  lemma FooterStarts(kind: ComponentKind, x: string)
    ensures StartsWith(Footer(kind) + x, "END:")
  {
    Assoc("END:", KindName(kind) + CRLF, x);
  }

  lemma AsStringParts(t: Tree, line: PropertyValue -> string, x: string)
    ensures AsString(t, line) + x
         == Header(t.kind) + (Lines(t.props, line) + (AllAsString(t.children, line) + (Footer(t.kind) + x)))
  {
    var f, c, l := Footer(t.kind), AllAsString(t.children, line), Lines(t.props, line);
    Assoc(Header(t.kind), l + (c + f), x);
    Assoc(l, c + f, x);
    Assoc(c, f, x);
  }

  /** A component's string determines the component, whatever follows it. */
  lemma {:induction false} Unique(a: Tree, x: string, b: Tree, y: string,
      line: PropertyValue -> string, all: set<PropertyValue>)
    requires AsString(a, line) + x == AsString(b, line) + y
    requires Faithful(line, all) && PropsOf(a) <= all && PropsOf(b) <= all
    ensures a == b && x == y
    decreases a, 1
  {
    AsStringParts(a, line, x);
    AsStringParts(b, line, y);
    var afterA := AllAsString(a.children, line) + (Footer(a.kind) + x);
    var afterB := AllAsString(b.children, line) + (Footer(b.kind) + y);
    SplitName(a.kind, Lines(a.props, line) + afterA, b.kind, Lines(b.props, line) + afterB, "BEGIN:");
    FooterStarts(a.kind, x);
    FooterStarts(b.kind, y);
    BeginsWithKeyword(a.children, line, Footer(a.kind) + x);
    BeginsWithKeyword(b.children, line, Footer(b.kind) + y);
    SplitLines(a.props, afterA, b.props, afterB, line, all);
    UniqueAll(a.children, Footer(a.kind) + x, b.children, Footer(b.kind) + y, line, all);
    Same(Footer(a.kind), x, Footer(b.kind), y);
  }

  lemma {:induction false} UniqueAll(ss: seq<Tree>, x: string, bs: seq<Tree>, y: string,
      line: PropertyValue -> string, all: set<PropertyValue>)
    requires AllAsString(ss, line) + x == AllAsString(bs, line) + y
    requires StartsWith(x, "END:") && StartsWith(y, "END:")
    requires Faithful(line, all) && PropsOfAll(ss) <= all && PropsOfAll(bs) <= all
    ensures ss == bs && x == y
    decreases ss, 0
  {
    BothOrNeither(ss, x, bs, y, line);
    if ss == [] {
      assert "" + x == x && "" + y == y;
    } else {
      Assoc(AsString(ss[0], line), AllAsString(ss[1..], line), x);
      Assoc(AsString(bs[0], line), AllAsString(bs[1..], line), y);
      Unique(ss[0], AllAsString(ss[1..], line) + x, bs[0], AllAsString(bs[1..], line) + y, line, all);
      UniqueAll(ss[1..], x, bs[1..], y, line, all);
      assert ss == [ss[0]] + ss[1..] && bs == [bs[0]] + bs[1..];
    }
  }

  /** There are no children in one list if there are none in the other. */
  lemma BothOrNeither(ss: seq<Tree>, x: string, bs: seq<Tree>, y: string, line: PropertyValue -> string)
    requires AllAsString(ss, line) + x == AllAsString(bs, line) + y
    requires StartsWith(x, "END:") && StartsWith(y, "END:")
    ensures ss == [] <==> bs == []
  {
    EndsFirst(ss, x, line);
    EndsFirst(bs, y, line);
  }

  lemma EndsFirst(ss: seq<Tree>, x: string, line: PropertyValue -> string)
    requires StartsWith(x, "END:")
    ensures StartsWith(AllAsString(ss, line) + x, "END:") <==> ss == []
  {
    if ss == [] {
      assert "" + x == x;
    } else {
      Assoc(AsString(ss[0], line), AllAsString(ss[1..], line), x);
      BeginsWithBegin(ss[0], line, AllAsString(ss[1..], line) + x);
    }
  }

  /** Components are told apart by their strings. */
  lemma AsStringInjective(a: Tree, b: Tree, line: PropertyValue -> string)
    requires Faithful(line, PropsOf(a) + PropsOf(b))
    ensures AsString(a, line) == AsString(b, line) <==> a == b
  {
    if AsString(a, line) == AsString(b, line) {
      Unique(a, "", b, "", line, PropsOf(a) + PropsOf(b));
    }
  }

  // -------------------------------------------------------- lines as they are folded

  /** What a property is printed as before its line is folded: one line, and not a keyword's. */
  predicate PlainLine(text: string) {
    && Terminated(text) && text[0] != ' '
    && !("BEGIN:" <= text) && !("END:" <= text)
  }

  predicate Distinct(text: PropertyValue -> string, props: set<PropertyValue>) {
    forall p <- props, q <- props :: text(p) == text(q) ==> p == q
  }

  /** How icalproperty_as_ical_string_r writes the properties with the given texts. */
  function Printed(text: PropertyValue -> string): PropertyValue -> string {
    p => Folded(text(p))
  }

  lemma FoldedPlainLine(s: string)
    requires PlainLine(s)
    ensures !Comparable(Folded(s), "BEGIN:") && !Comparable(Folded(s), "END:")
    ensures Folded(s) != "" && Folded(s)[0] != ' '
  {
    FoldedStart(s, "BEGIN:");
    FoldedStart(s, "END:");
    FoldedAt(s, 0);
  }

  lemma SpaceNoOpening(s: string, line: PropertyValue -> string, props: set<PropertyValue>)
    requires s != "" && s[0] == ' ' && forall p <- props :: line(p) != "" && line(p)[0] != ' '
    ensures NoOpening(s, line, props)
  {
  }

  /** Texts of one line each are printed faithfully, wherever they are folded, exactly if they are distinct. */
  lemma FoldedFaithful(text: PropertyValue -> string, props: set<PropertyValue>)
    requires forall p <- props :: PlainLine(text(p))
    ensures Faithful(Printed(text), props) <==> Distinct(text, props)
  {
    var line := Printed(text);
    forall p <- props
      ensures !Comparable(line(p), "BEGIN:") && !Comparable(line(p), "END:")
      ensures line(p) != "" && line(p)[0] != ' '
    {
      FoldedPlainLine(text(p));
    }
    if Distinct(text, props) {
      forall p <- props, q <- props | p != q && line(p) <= line(q)
        ensures NoOpening(line(q)[|line(p)|..], line, props)
      {
        FoldedApart(text(p), text(q));
        SpaceNoOpening(line(q)[|line(p)|..], line, props);
      }
    } else {
      var p, q :| p in props && q in props && text(p) == text(q) && p != q;
      assert line(p) == line(q) && !NoOpening(line(q)[|line(p)|..], line, props);
    }
  }

  // ------------------------------------------------------------- comparing two zones

  /** The first TZID property with another value. */
  function PropsWithTzid(props: seq<PropertyValue>, tzid: string): (r: seq<PropertyValue>)
    ensures |r| == |props|
  {
    if props == [] then []
    else if props[0].kind == Tzid then [props[0].(value := Text(tzid))] + props[1..]
    else [props[0]] + PropsWithTzid(props[1..], tzid)
  }

  function WithTzid(t: Tree, tzid: string): Tree {
    t.(props := PropsWithTzid(t.props, tzid))
  }

  predicate FirstTzidAt(props: seq<PropertyValue>, i: nat)
    requires i < |props|
  {
    props[i].kind == Tzid && forall j :: 0 <= j < i ==> props[j].kind != Tzid
  }

  function TzidSetAt(props: seq<PropertyValue>, i: nat, tzid: string): PropertyValue
    requires i < |props|
  {
    if FirstTzidAt(props, i) then props[i].(value := Text(tzid)) else props[i]
  }

  /** Only the first TZID property has another value. */
  predicate OnlyTzidSet(props: seq<PropertyValue>, r: seq<PropertyValue>, tzid: string) {
    |r| == |props| && forall i :: 0 <= i < |props| && i < |r| ==> r[i] == TzidSetAt(props, i, tzid)
  }

  lemma PropsWithTzidExact(props: seq<PropertyValue>, r: seq<PropertyValue>, tzid: string)
    ensures OnlyTzidSet(props, r, tzid) <==> r == PropsWithTzid(props, tzid)
  {
    WithTzidIs(props, tzid);
  }

  lemma {:induction false} WithTzidIs(props: seq<PropertyValue>, tzid: string)
    ensures OnlyTzidSet(props, PropsWithTzid(props, tzid), tzid)
  {
    if props != [] && props[0].kind != Tzid {
      var rest, r := props[1..], PropsWithTzid(props[1..], tzid);
      WithTzidIs(rest, tzid);
      forall i | 0 < i < |props|
        ensures ([props[0]] + r)[i] == TzidSetAt(props, i, tzid)
      {
        FirstTzidLater(props, i);
        assert r[i - 1] == TzidSetAt(rest, i - 1, tzid);
      }
    }
  }

  /** A later property is the first TZID of the list if it is that of the rest. */
  lemma FirstTzidLater(props: seq<PropertyValue>, i: nat)
    requires 0 < i < |props| && props[0].kind != Tzid
    ensures FirstTzidAt(props, i) <==> FirstTzidAt(props[1..], i - 1)
  {
    assert forall j :: 0 <= j < i - 1 ==> props[1..][j] == props[j + 1];
    assert forall j :: 0 < j < i ==> props[j] == props[1..][j - 1];
  }

  /** Equal but for the value of the first TZID property. */
  predicate EqualButTzid(a: Tree, b: Tree) {
    WithTzid(a, "") == WithTzid(b, "")
  }

  /** The properties there are the same, or the first TZIDs with the same parameters. */
  predicate SameButTzidAt(a: seq<PropertyValue>, b: seq<PropertyValue>, i: nat)
    requires i < |a| && i < |b|
  {
    a[i] == b[i] || (FirstTzidAt(a, i) && FirstTzidAt(b, i) && a[i].params == b[i].params)
  }

  /** Everything but those values is the same. */
  lemma EqualButTzidExact(a: Tree, b: Tree)
    ensures EqualButTzid(a, b) <==>
            a.kind == b.kind && a.children == b.children && |a.props| == |b.props|
            && forall i :: 0 <= i < |a.props| && i < |b.props| ==> SameButTzidAt(a.props, b.props, i)
  {
    var r, s := PropsWithTzid(a.props, ""), PropsWithTzid(b.props, "");
    WithTzidIs(a.props, "");
    WithTzidIs(b.props, "");
    if r == s {
      forall i | 0 <= i < |a.props| ensures a.props[i].kind == b.props[i].kind {
        assert r[i].kind == a.props[i].kind && s[i].kind == b.props[i].kind;
      }
      forall i | 0 <= i < |a.props| ensures SameButTzidAt(a.props, b.props, i) {
        assert FirstTzidAt(a.props, i) <==> FirstTzidAt(b.props, i);
        assert r[i] == s[i];
      }
    }
    if |a.props| == |b.props| && forall i :: 0 <= i < |a.props| ==> SameButTzidAt(a.props, b.props, i) {
      forall i | 0 <= i < |a.props| ensures r[i] == s[i] {
        forall j | 0 <= j <= i ensures a.props[j].kind == b.props[j].kind {
          assert SameButTzidAt(a.props, b.props, j);
        }
        assert FirstTzidAt(a.props, i) <==> FirstTzidAt(b.props, i);
        assert SameButTzidAt(a.props, b.props, i);
      }
    }
  }

  /** icalcomponent_compare_vtimezones: -1 when a TZID is missing. */
  function CompareZones(a: Tree, b: Tree, line: PropertyValue -> string): int {
    if TzidOf(a) == None || TzidOf(b) == None then -1
    else if AsString(a, line) == AsString(WithTzid(b, TzidOf(a).value), line) then 1
    else 0
  }

  lemma {:induction false} PropsTzidSet(ps: seq<PropertyValue>, qs: seq<PropertyValue>)
    requires PropsTzid(ps).Some?
    ensures PropsWithTzid(qs, PropsTzid(ps).value) == ps <==> PropsWithTzid(ps, "") == PropsWithTzid(qs, "")
  {
    if qs != [] {
      var v := PropsTzid(ps).value;
      assert ps == [ps[0]] + ps[1..] && qs == [qs[0]] + qs[1..];
      if ps[0].kind == Tzid {
        if qs[0].kind == Tzid {
          ConsEqual(qs[0].(value := Text(v)), qs[1..], ps[0], ps[1..]);
          ConsEqual(ps[0].(value := Text("")), ps[1..], qs[0].(value := Text("")), qs[1..]);
        } else {
          ConsEqual(qs[0], PropsWithTzid(qs[1..], v), ps[0], ps[1..]);
          ConsEqual(ps[0].(value := Text("")), ps[1..], qs[0], PropsWithTzid(qs[1..], ""));
        }
      } else {
        PropsTzidSet(ps[1..], qs[1..]);
        if qs[0].kind == Tzid {
          ConsEqual(qs[0].(value := Text(v)), qs[1..], ps[0], ps[1..]);
          ConsEqual(ps[0], PropsWithTzid(ps[1..], ""), qs[0].(value := Text("")), qs[1..]);
        } else {
          ConsEqual(qs[0], PropsWithTzid(qs[1..], v), ps[0], ps[1..]);
          ConsEqual(ps[0], PropsWithTzid(ps[1..], ""), qs[0], PropsWithTzid(qs[1..], ""));
        }
      }
    }
  }

  lemma ConsEqual<T>(a: T, s: seq<T>, b: T, t: seq<T>)
    ensures [a] + s == [b] + t <==> a == b && s == t
  {
    if [a] + s == [b] + t {
      assert ([a] + s)[0] == ([b] + t)[0];
      assert ([a] + s)[1..] == ([b] + t)[1..];
      assert ([a] + s)[1..] == s && ([b] + t)[1..] == t;
    }
  }

  /** Without a TZID in one of them there is no comparison. */
  lemma CompareMissing(a: Tree, b: Tree, line: PropertyValue -> string)
    ensures CompareZones(a, b, line) == -1 <==> TzidOf(a) == None || TzidOf(b) == None
  {
  }

  /** For two zones that have a TZID, the comparison says exactly whether they are equal but for it. */
  lemma CompareExact(a: Tree, b: Tree, line: PropertyValue -> string)
    requires TzidOf(a).Some? && TzidOf(b).Some?
    requires Faithful(line, PropsOf(a) + PropsOf(WithTzid(b, TzidOf(a).value)))
    ensures CompareZones(a, b, line) == 1 <==> EqualButTzid(a, b)
    ensures CompareZones(a, b, line) == 0 <==> !EqualButTzid(a, b)
  {
    AsStringInjective(a, WithTzid(b, TzidOf(a).value), line);
    PropsTzidSet(a.props, b.props);
  }
  /** The same of zones whose properties have distinct texts of one line each, as they are printed. */
  lemma CompareFolded(a: Tree, b: Tree, text: PropertyValue -> string)
    requires TzidOf(a).Some? && TzidOf(b).Some?
    requires var props := PropsOf(a) + PropsOf(WithTzid(b, TzidOf(a).value));
             Distinct(text, props) && forall p <- props :: PlainLine(text(p))
    ensures CompareZones(a, b, Printed(text)) == 1 <==> EqualButTzid(a, b)
    ensures CompareZones(a, b, Printed(text)) == 0 <==> !EqualButTzid(a, b)
  {
    FoldedFaithful(text, PropsOf(a) + PropsOf(WithTzid(b, TzidOf(a).value)));
    CompareExact(a, b, Printed(text));
  }
}
