/** When a `/`-joined declaration is accepted only together with its parts: exactly when no parenthesis is split. */
module SpdxParts {
  import opened Text
  import opened Spdx
  import opened SpdxText

  // Parenthesis depth of token lists.

  function Weight(t: string): int { if t == "(" then 1 else if t == ")" then -1 else 0 }

  function Depth(ts: seq<string>): int {
    if ts == [] then 0 else Depth(ts[..|ts| - 1]) + Weight(ts[|ts| - 1])
  }

  lemma {:induction false} DepthConcat(a: seq<string>, b: seq<string>)
    ensures Depth(a + b) == Depth(a) + Depth(b)
    decreases |b|
  {
    if b == [] {
      assert a + b == a;
    } else {
      assert (a + b)[..|a + b| - 1] == a + b[..|b| - 1];
      DepthConcat(a, b[..|b| - 1]);
    }
  }

  lemma DepthOne(t: string)
    ensures Depth([t]) == Weight(t)
  {
    assert [t][..0] == [];
  }

  /** In a print, no prefix closes more than it opens, the whole is balanced, and, unless `top`, every `OR` is inside
      parentheses. */
  ghost predicate Nested(ts: seq<string>, top: bool) {
    && Depth(ts) == 0
    && forall n :: 0 <= n < |ts| ==> Depth(ts[..n]) >= if ts[n] == "OR" && !top then 1 else 0
  }

  lemma NestedConcat(a: seq<string>, word: string, b: seq<string>, top: bool)
    requires Nested(a, top) && Nested(b, top) && Weight(word) == 0 && (word == "OR" ==> top)
    ensures Nested(a + [word] + b, top)
  {
    var ts := a + [word] + b;
    DepthConcat(a + [word], b);
    DepthConcat(a, [word]);
    DepthOne(word);
    forall n | 0 <= n < |ts| ensures Depth(ts[..n]) >= if ts[n] == "OR" && !top then 1 else 0 {
      if n < |a| {
        assert ts[..n] == a[..n] && ts[n] == a[n];
      } else if n == |a| {
        assert ts[..n] == a && ts[n] == word;
      } else {
        assert ts[..n] == a + [word] + b[..n - |a| - 1] && ts[n] == b[n - |a| - 1];
        DepthConcat(a + [word], b[..n - |a| - 1]);
      }
    }
  }

  lemma NestedGroup(d: seq<string>, top: bool)
    requires Nested(d, true)
    ensures Nested(["("] + d + [")"], top)
  {
    var ts := ["("] + d + [")"];
    DepthOne("(");
    DepthOne(")");
    DepthConcat(["("] + d, [")"]);
    DepthConcat(["("], d);
    forall n | 0 < n < |ts| ensures Depth(ts[..n]) >= 1 {
      assert ts[..n] == ["("] + d[..n - 1];
      DepthConcat(["("], d[..n - 1]);
      assert n - 1 == |d| ==> d[..n - 1] == d;
    }
    assert ts[..0] == [];
  }

  lemma {:induction false} PrimaryNested(p: Primary)
    requires OkPrimary(p)
    ensures Nested(PrintPrimary(p), false)
    decreases p
  {
    match p
    case License(id) =>
      DepthOne(id);
      assert [id][..0] == [];
    case With(id, e) =>
      LicenseNested(id);
      LicenseNested(e);
      NestedConcat([id], "WITH", [e], false);
      assert PrintPrimary(p) == [id] + ["WITH"] + [e];
    case Group(d) =>
      DisjNested(d);
      NestedGroup(PrintDisj(d), false);
  }

  lemma LicenseNested(t: string)
    requires IsException(t)
    ensures Nested([t], false)
  {
    DepthOne(t);
    assert [t][..0] == [];
  }

  lemma {:induction false} ConjNested(c: Conj)
    requires OkConj(c)
    ensures Nested(PrintConj(c), false)
    decreases c
  {
    match c
    case Only(p) => PrimaryNested(p);
    case And(p, rest) =>
      PrimaryNested(p);
      ConjNested(rest);
      NestedConcat(PrintPrimary(p), "AND", PrintConj(rest), false);
  }

  lemma {:induction false} DisjNested(d: Disj)
    requires OkDisj(d)
    ensures Nested(PrintDisj(d), true)
    decreases d
  {
    match d
    case One(c) => ConjNested(c);
    case Or(c, rest) =>
      ConjNested(c);
      DisjNested(rest);
      NestedConcat(PrintConj(c), "OR", PrintDisj(rest), true);
  }

  // Splitting a print at an `OR` outside parentheses.

  lemma NoTopOr(c: seq<string>, a: seq<string>, b: seq<string>)
    requires Nested(c, false) && |a| < |c| && c <= a + ["OR"] + b
    ensures Depth(a) >= 1
  {
    var ts := a + ["OR"] + b;
    assert c == ts[..|c|];
    assert c[|a|] == ts[|a|] == "OR" && c[..|a|] == ts[..|a|] == a;
  }

  /** Two ways to read one list as a head, `OR` and a tail, the first with a balanced head without such an `OR`. */
  lemma HeadsCompared(c: seq<string>, rest: seq<string>, a: seq<string>, b: seq<string>)
    requires Nested(c, false) && Depth(a) == 0 && c + ["OR"] + rest == a + ["OR"] + b
    ensures |a| >= |c|
    ensures |a| == |c| ==> a == c && b == rest
    ensures |a| > |c| ==> var a' := a[|c| + 1..]; a == c + ["OR"] + a' && rest == a' + ["OR"] + b && Depth(a') == 0
  {
    var ts := c + ["OR"] + rest;
    if |a| < |c| {
      NoTopOr(c, a, b);
    } else if |a| == |c| {
      assert a == ts[..|a|] == c && b == ts[|a| + 1..] == rest;
    } else {
      var a' := a[|c| + 1..];
      assert a == ts[..|a|] && ts[..|c|] == c && ts[|c|] == "OR";
      assert a == c + ["OR"] + a';
      assert rest == ts[|c| + 1..] == (a + ["OR"] + b)[|c| + 1..] == a' + ["OR"] + b;
      DepthConcat(c + ["OR"], a');
      DepthConcat(c, ["OR"]);
      DepthOne("OR");
    }
  }

  lemma {:induction false} SplitPrinted(d: Disj, a: seq<string>, b: seq<string>)
    requires OkDisj(d) && PrintDisj(d) == a + ["OR"] + b && Depth(a) == 0
    ensures IsPrinted(a) && IsPrinted(b)
    decreases d
  {
    match d
    case One(c) =>
      ConjNested(c);
      NoTopOr(PrintConj(c), a, b);
    case Or(c, rest) =>
      ConjNested(c);
      HeadsCompared(PrintConj(c), PrintDisj(rest), a, b);
      if |a| == |PrintConj(c)| {
        assert OkDisj(One(c)) && PrintDisj(One(c)) == a;
      } else {
        var a' := a[|PrintConj(c)| + 1..];
        SplitPrinted(rest, a', b);
        OrPrinted(c, a');
      }
  }

  lemma OrPrinted(c: Conj, ts: seq<string>)
    requires OkConj(c) && IsPrinted(ts)
    ensures IsPrinted(PrintConj(c) + ["OR"] + ts)
  {
    var d :| OkDisj(d) && PrintDisj(d) == ts;
    assert OkDisj(Or(c, d)) && PrintDisj(Or(c, d)) == PrintConj(c) + ["OR"] + ts;
  }

  lemma PrintedBalanced(ts: seq<string>)
    requires IsPrinted(ts)
    ensures Depth(ts) == 0
  {
    var d :| OkDisj(d) && PrintDisj(d) == ts;
    DisjNested(d);
  }

  // Parentheses of a text and of its tokens.

  /** How many more `(` than `)` the text holds. */
  function Balance(s: string): int {
    if s == "" then 0
    else Balance(s[..|s| - 1]) + if s[|s| - 1] == '(' then 1 else if s[|s| - 1] == ')' then -1 else 0
  }

  predicate Balanced(parts: seq<string>) {
    forall i :: 0 <= i < |parts| ==> Balance(parts[i]) == 0
  }

  ghost predicate AllPrinted(parts: seq<string>) {
    forall i :: 0 <= i < |parts| ==> IsPrinted(Tokens(parts[i]))
  }

  /** The unfinished last word of a padded text is no parenthesis. */
  ghost predicate LastOpen(s: string) {
    var p := PadParens(s);
    EndsWord(p) ==> Weight(Split(p)[|Split(p)| - 1]) == 0
  }

  lemma PadGrows(s: string, c: char)
    ensures PadParens(s + [c]) == PadParens(s) + if c == '(' then " ( " else if c == ')' then " ) " else [c]
  {
    assert (s + [c])[..|s|] == s;
  }

  lemma PaddedWord(p: string, w: string)
    requires Word(w)
    ensures Split(p + [' '] + w + [' ']) == Split(p) + [w]
    ensures !EndsWord(p + [' '] + w + [' '])
  {
    SplitAtSpace(p, ' ', w);
    SplitWord(w);
    SplitGrow(p + [' '] + w, ' ');
  }

  lemma GrownDepth(words: seq<string>, c: char)
    requires words != [] && Weight(words[|words| - 1]) == 0 && words[|words| - 1] != ""
    ensures Depth(GrowLast(words, c)) == Depth(words) && Weight(GrowLast(words, c)[|words| - 1]) == 0
  {
    var grown := GrowLast(words, c);
    assert grown[..|grown| - 1] == words[..|words| - 1];
    assert |grown[|grown| - 1]| >= 2;
  }

  /** One more character that is no parenthesis keeps the depth of the words. */
  lemma PlainStep(p: string, c: char)
    requires c != '(' && c != ')' && (EndsWord(p) ==> Weight(Split(p)[|Split(p)| - 1]) == 0)
    ensures Depth(Split(p + [c])) == Depth(Split(p))
    ensures EndsWord(p + [c]) ==> Weight(Split(p + [c])[|Split(p + [c])| - 1]) == 0
  {
    SplitGrow(p, c);
    if !IsSpace(c) {
      if EndsWord(p) {
        SplitWords(p);
        GrownDepth(Split(p), c);
      } else {
        DepthConcat(Split(p), [[c]]);
        DepthOne([c]);
        assert [c][0] == c;
      }
    }
  }

  lemma ParenStep(p: string, w: string)
    requires w == "(" || w == ")"
    ensures Depth(Split(p + [' '] + w + [' '])) == Depth(Split(p)) + Weight(w)
    ensures !EndsWord(p + [' '] + w + [' '])
  {
    PaddedWord(p, w);
    DepthConcat(Split(p), [w]);
    DepthOne(w);
  }

  /** One more character changes the depth of the tokens as it changes the balance of the text. */
  lemma ParenToken(s: string, c: char)
    requires c == '(' || c == ')'
    ensures Depth(Tokens(s + [c])) == Depth(Tokens(s)) + (if c == '(' then 1 else -1) && LastOpen(s + [c])
  {
    PadGrows(s, c);
    var p := PadParens(s);
    assert [' '] + [c] + [' '] == if c == '(' then " ( " else " ) ";
    Assoc(p, [' '] + [c], [' ']);
    Assoc(p, [' '], [c]);
    ParenStep(p, [c]);
  }

  lemma PlainToken(s: string, c: char)
    requires c != '(' && c != ')' && LastOpen(s)
    ensures Depth(Tokens(s + [c])) == Depth(Tokens(s)) && LastOpen(s + [c])
  {
    PadGrows(s, c);
    PlainStep(PadParens(s), c);
  }

  lemma {:induction false} TokenDepth(s: string)
    ensures Depth(Tokens(s)) == Balance(s) && LastOpen(s)
    decreases |s|
  {
    if s != "" {
      var init, c := s[..|s| - 1], s[|s| - 1];
      TokenDepth(init);
      assert s == init + [c];
      if c == '(' || c == ')' { ParenToken(init, c); } else { PlainToken(init, c); }
    }
  }

  // The parts of a declaration.

  lemma {:induction false} BalancedDepth(parts: seq<string>)
    requires parts != [] && Balanced(parts)
    ensures Depth(OrTokens(parts)) == 0
    decreases |parts|
  {
    TokenDepth(parts[|parts| - 1]);
    if |parts| > 1 {
      var init := parts[..|parts| - 1];
      BalancedDepth(init);
      DepthConcat(OrTokens(init) + ["OR"], Tokens(parts[|parts| - 1]));
      DepthConcat(OrTokens(init), ["OR"]);
      DepthOne("OR");
    }
  }

  lemma AllPrintedGrows(parts: seq<string>, last: string)
    requires AllPrinted(parts) && IsPrinted(Tokens(last))
    ensures AllPrinted(parts + [last])
  {
  }

  lemma {:induction false} BalancedPartsPrinted(parts: seq<string>)
    requires parts != [] && Balanced(parts) && IsPrinted(OrTokens(parts))
    ensures AllPrinted(parts)
    decreases |parts|
  {
    if |parts| > 1 {
      var init, last := parts[..|parts| - 1], parts[|parts| - 1];
      var d :| OkDisj(d) && PrintDisj(d) == OrTokens(parts);
      BalancedDepth(init);
      SplitPrinted(d, OrTokens(init), Tokens(last));
      BalancedPartsPrinted(init);
      AllPrintedGrows(init, last);
      assert parts == init + [last];
    }
  }

  /** Every part is an expression by itself if and only if their disjunction is one and no part splits a parenthesis. */
  lemma PartsExactly(parts: seq<string>)
    requires parts != []
    ensures AllPrinted(parts) <==> IsPrinted(OrTokens(parts)) && Balanced(parts)
  {
    if AllPrinted(parts) {
      PartsSuffice(parts);
      forall i | 0 <= i < |parts| ensures Balance(parts[i]) == 0 {
        PrintedBalanced(Tokens(parts[i]));
        TokenDepth(parts[i]);
      }
    }
    if IsPrinted(OrTokens(parts)) && Balanced(parts) { BalancedPartsPrinted(parts); }
  }

  ghost predicate Accepted(e: string) {
    Normalize(e).Some? && IsPrinted(Tokens(Normalize(e).value))
  }

  lemma PrintedNotBlank(s: string)
    requires IsPrinted(Tokens(s))
    ensures !Blank(s)
  {
    NothingPrintsEmpty();
    if Blank(s) { BlankTokens(s); }
  }

  lemma BlankTokens(s: string)
    requires Blank(s)
    ensures Tokens(s) == []
  {
    PadPlain(s);
    SplitBlank(s);
  }

  /** A declaration with `/` has only expressions for parts if and only if it is accepted and every part holds as many
      `(` as `)`. */
  lemma DeclarationParts(e: string)
    requires '/' in e
    ensures AllPrinted(SplitSlash(e)) <==> Accepted(e) && Balanced(SplitSlash(e))
  {
    var parts := SplitSlash(e);
    DeclarationAccepted(e);
    PartsExactly(parts);
    if AllPrinted(parts) {
      forall i | 0 <= i < |parts| ensures !Blank(parts[i]) { PrintedNotBlank(parts[i]); }
    }
  }

  predicate NoParens(s: string) { forall i :: 0 <= i < |s| ==> s[i] != '(' && s[i] != ')' }

  lemma {:induction false} PadPlain(w: string)
    requires NoParens(w)
    ensures PadParens(w) == w
    decreases |w|
  {
    if w != "" {
      var init, c := w[..|w| - 1], w[|w| - 1];
      PadPlain(init);
      assert PadParens(w) == init + [c];
    }
  }

  lemma Assoc(a: string, b: string, c: string)
    ensures a + b + c == a + (b + c)
  {
  }

  lemma PadParen(c: char)
    requires c == '(' || c == ')'
    ensures PadParens([c]) == [' '] + [c] + [' ']
  {
    assert [c][..0] == "" && PadParens("") == "";
  }

  lemma SplitFront(x: string, w: string)
    requires Word(x) && Word(w)
    ensures Split([' '] + x + [' '] + w) == [x, w]
  {
    SplitAtSpace([' '] + x, ' ', w);
    assert "" + [' '] == [' '];
    SplitAtSpace("", ' ', x);
    SplitWord(x);
    SplitWord(w);
  }

  lemma SplitBack(w: string, x: string)
    requires Word(x) && Word(w)
    ensures Split(w + [' '] + x + [' ']) == [w, x]
  {
    PaddedWord(w, x);
    SplitWord(w);
  }

  ghost predicate PlainWord(w: string) { Word(w) && NoParens(w) }

  /** A parenthesis in front of a word is a token of its own. */
  lemma FrontTokens(c: char, w: string)
    requires PlainWord(w) && (c == '(' || c == ')')
    ensures Tokens([c] + w) == [[c], w]
  {
    PadFront(c, w);
    SplitFront([c], w);
  }

  lemma PadFront(c: char, w: string)
    requires NoParens(w) && (c == '(' || c == ')')
    ensures PadParens([c] + w) == [' '] + [c] + [' '] + w
  {
    PadConcat([c], w);
    PadPlain(w);
    PadParen(c);
  }

  lemma PadBack(w: string, c: char)
    requires NoParens(w) && (c == '(' || c == ')')
    ensures PadParens(w + [c]) == w + [' '] + [c] + [' ']
  {
    PadConcat(w, [c]);
    PadPlain(w);
    PadParen(c);
    Assoc(w, [' '] + [c], [' ']);
    Assoc(w, [' '], [c]);
  }

  /** So is one behind it. */
  lemma BackTokens(w: string, c: char)
    requires PlainWord(w) && (c == '(' || c == ')')
    ensures Tokens(w + [c]) == [w, [c]]
  {
    PadBack(w, c);
    SplitBack(w, [c]);
  }

  lemma HalvesNotPrinted()
    ensures IsPrinted(["(", "A"] + ["OR"] + ["B", ")"]) && !IsPrinted(["(", "A"]) && !IsPrinted(["B", ")"])
  {
    assert IsLicense("A") by { assert IsLetter("A"[0]); }
    assert IsLicense("B") by { assert IsLetter("B"[0]); }
    var d := One(Only(Group(Or(Only(License("A")), One(Only(License("B")))))));
    assert PrintDisj(d) == ["(", "A"] + ["OR"] + ["B", ")"];
    DepthOne("(");
    DepthOne("B");
    DepthConcat(["("], ["A"]);
    DepthConcat(["B"], [")"]);
    DepthOne("A");
    DepthOne(")");
    if IsPrinted(["(", "A"]) { PrintedBalanced(["("] + ["A"]); }
    if IsPrinted(["B", ")"]) { PrintedBalanced(["B"] + [")"]); }
  }

  lemma HalvesTokens()
    ensures Tokens("(A") == ["(", "A"] && Tokens("B)") == ["B", ")"]
  {
    FrontTokens('(', "A");
    BackTokens("B", ')');
    assert "(A" == ['('] + "A" && "B)" == "B" + [')'];
  }

  lemma TwoParts(a: string, b: string)
    ensures OrTokens([a, b]) == Tokens(a) + ["OR"] + Tokens(b)
  {
    assert [a, b][..1] == [a];
  }

  /** The condition is needed: `(A/B)` is accepted, although neither part is an expression. */
  lemma PartsNotNecessary()
    ensures SplitSlash("(A/B)") == ["(A", "B)"] && Accepted("(A/B)")
    ensures !IsPrinted(Tokens("(A")) && !IsPrinted(Tokens("B)"))
  {
    SlashExample();
    HalvesTokens();
    HalvesNotPrinted();
    TwoParts("(A", "B)");
    DeclarationAccepted("(A/B)");
    assert forall s: string :: s != "" && !IsSpace(s[0]) ==> !Blank(s);
    assert !Blank("(A") && !Blank("B)");
  }

  lemma SlashGrows(s: string, c: char)
    ensures var parts := SplitSlash(s);
            SplitSlash(s + [c]) ==
            if c == '/' then parts + [""] else parts[..|parts| - 1] + [parts[|parts| - 1] + [c]]
  {
    assert (s + [c])[..|s|] == s;
  }

  /** A slash ends a part, and what follows without one is the next. */
  lemma {:induction false} SlashAt(a: string, b: string)
    requires '/' !in b
    ensures SplitSlash(a + ['/'] + b) == SplitSlash(a) + [b]
    decreases |b|
  {
    if b == "" {
      SlashGrows(a, '/');
      assert a + ['/'] + b == a + ['/'];
    } else {
      var init, c := b[..|b| - 1], b[|b| - 1];
      SlashAt(a, init);
      SlashGrows(a + ['/'] + init, c);
      Assoc(a + ['/'], init, [c]);
      assert b == init + [c];
    }
  }

  lemma {:induction false} NoSlash(s: string)
    requires '/' !in s
    ensures SplitSlash(s) == [s]
    decreases |s|
  {
    if s != "" {
      NoSlash(s[..|s| - 1]);
      assert s == s[..|s| - 1] + [s[|s| - 1]];
    }
  }

  lemma SlashExample()
    ensures SplitSlash("(A/B)") == ["(A", "B)"] && '/' in "(A/B)"
  {
    NoSlash("(A");
    SlashAt("(A", "B)");
    assert "(A/B)" == "(A" + ['/'] + "B)";
    assert "(A/B)"[2] == '/';
  }
}
