/** License declarations as text: tokenising, the `/` normaliser, and what a normalised declaration means. */
module SpdxText {
  import opened Text
  import opened Spdx
  import opened Wrappers

  predicate EndsWord(s: string) {
    s != "" && !IsSpace(s[|s| - 1])
  }

  function GrowLast(words: seq<string>, c: char): seq<string>
    requires words != []
  {
    words[..|words| - 1] + [words[|words| - 1] + [c]]
  }

  /** `str.split()`: the maximal runs of characters that are not white space. */
  function Split(s: string): (words: seq<string>)
    ensures EndsWord(s) ==> words != []
  {
    if s == "" then []
    else
      var init, c := s[..|s| - 1], s[|s| - 1];
      if IsSpace(c) then Split(init)
      else if !EndsWord(init) then Split(init) + [[c]]
      else GrowLast(Split(init), c)
  }

  /** Every parenthesis between two spaces. */
  function PadParens(s: string): string {
    if s == "" then ""
    else
      var c := s[|s| - 1];
      PadParens(s[..|s| - 1]) + if c == '(' then " ( " else if c == ')' then " ) " else [c]
  }

  function Tokens(s: string): seq<string> {
    Split(PadParens(s))
  }

  /** The parts between slashes. */
  function SplitSlash(s: string): (parts: seq<string>)
    ensures parts != []
  {
    if s == "" then [""]
    else
      var parts, c := SplitSlash(s[..|s| - 1]), s[|s| - 1];
      if c == '/' then parts + [""]
      else parts[..|parts| - 1] + [parts[|parts| - 1] + [c]]
  }

  /** The words with single spaces between them. */
  function Squeeze(s: string): string {
    Join(Split(s), " ")
  }

  function SqueezeAll(parts: seq<string>): seq<string> {
    seq(|parts|, i requires 0 <= i < |parts| => Squeeze(parts[i]))
  }

  /** `normalize_license`. A part is empty after `strip()` exactly when it is blank; `None` is the raised error. */
  function Normalize(e: string): Option<string> {
    if '/' !in e then Some(Squeeze(e))
    else
      var parts := SplitSlash(e);
      if exists i :: 0 <= i < |parts| && Blank(parts[i]) then None
      else Some(Join(SqueezeAll(parts), " OR "))
  }

  method ValidSpdxExpression(e: string) returns (ok: bool)
    ensures ok <==> IsPrinted(Tokens(e))
  {
    ok := ValidTokens(Tokens(e));
  }

  // White space separates.

  lemma SplitGrow(s: string, c: char)
    ensures Split(s + [c]) ==
            if IsSpace(c) then Split(s) else if !EndsWord(s) then Split(s) + [[c]] else GrowLast(Split(s), c)
  {
    assert (s + [c])[..|s|] == s;
  }

  lemma {:induction false} SplitAtSpace(a: string, sp: char, b: string)
    requires IsSpace(sp)
    ensures Split(a + [sp] + b) == Split(a) + Split(b)
    decreases |b|
  {
    var s := a + [sp] + b;
    if b == "" {
      assert s[..|s| - 1] == a;
    } else {
      var init, c := b[..|b| - 1], b[|b| - 1];
      assert s == a + [sp] + init + [c] && b == init + [c];
      SplitAtSpace(a, sp, init);
      SplitGrow(a + [sp] + init, c);
      SplitGrow(init, c);
      assert EndsWord(a + [sp] + init) <==> EndsWord(init);
      if !IsSpace(c) {
        if EndsWord(init) {
          GrowConcat(Split(a), Split(init), c);
        } else {
          assert Split(b) == Split(init) + [[c]];
        }
      }
    }
  }

  lemma GrowConcat(a: seq<string>, b: seq<string>, c: char)
    requires b != []
    ensures GrowLast(a + b, c) == a + GrowLast(b, c)
  {
  }

  lemma {:induction false} PadConcat(a: string, b: string)
    ensures PadParens(a + b) == PadParens(a) + PadParens(b)
    decreases |b|
  {
    if b == "" {
      assert a + b == a;
    } else {
      assert (a + b)[..|a + b| - 1] == a + b[..|b| - 1];
      PadConcat(a, b[..|b| - 1]);
    }
  }

  lemma TokensAtSpace(a: string, sp: char, b: string)
    requires IsSpace(sp)
    ensures Tokens(a + [sp] + b) == Tokens(a) + Tokens(b)
  {
    PadConcat(a + [sp], b);
    PadConcat(a, [sp]);
    assert [sp][..0] == "" && PadParens([sp]) == [sp];
    SplitAtSpace(PadParens(a), sp, PadParens(b));
  }

  ghost predicate Word(w: string) {
    w != "" && forall i :: 0 <= i < |w| ==> !IsSpace(w[i])
  }

  lemma {:induction false} SplitWord(w: string)
    requires Word(w)
    ensures Split(w) == [w]
    decreases |w|
  {
    var init := w[..|w| - 1];
    assert w == init + [w[|w| - 1]];
    if init != "" { SplitWord(init); }
  }

  lemma {:induction false} SplitBlank(s: string)
    ensures Split(s) == [] <==> Blank(s)
    decreases |s|
  {
    if s != "" {
      SplitBlank(s[..|s| - 1]);
      assert Blank(s) <==> Blank(s[..|s| - 1]) && IsSpace(s[|s| - 1]);
    }
  }

  lemma {:induction false} SplitWords(s: string)
    ensures forall i :: 0 <= i < |Split(s)| ==> Word(Split(s)[i])
    decreases |s|
  {
    if s != "" { SplitWords(s[..|s| - 1]); }
  }

  /** Splitting joined words gives the words back. */
  lemma {:induction false} SplitJoin(words: seq<string>)
    requires forall i :: 0 <= i < |words| ==> Word(words[i])
    ensures Split(Join(words, " ")) == words
    decreases |words|
  {
    if words != [] {
      var init, last := words[..|words| - 1], words[|words| - 1];
      assert words == init + [last];
      SplitWord(last);
      if |words| > 1 {
        SplitJoin(init);
        SplitAtSpace(Join(init, " "), ' ', last);
        JoinLast(init, last, " ");
      }
    }
  }

  /** The last white space of a string, if any. */
  lemma {:induction false} LastSpace(s: string) returns (k: int)
    ensures -1 <= k < |s| && (k >= 0 ==> IsSpace(s[k])) && forall i :: k < i < |s| ==> !IsSpace(s[i])
    decreases |s|
  {
    if s == "" {
      k := -1;
    } else if IsSpace(s[|s| - 1]) {
      k := |s| - 1;
    } else {
      k := LastSpace(s[..|s| - 1]);
      assert k >= 0 ==> s[..|s| - 1][k] == s[k];
      assert forall i :: 0 <= i < |s| - 1 ==> s[..|s| - 1][i] == s[i];
    }
  }

  /** Squeezing white space does not change the tokens. */
  lemma {:induction false} TokensSqueeze(s: string)
    ensures Tokens(Squeeze(s)) == Tokens(s)
    decreases |s|
  {
    var k := LastSpace(s);
    if k < 0 {
      if s != "" { SplitWord(s); }
    } else {
      var a, w := s[..k], s[k + 1..];
      assert s == a + [s[k]] + w;
      TokensSqueeze(a);
      TokensAtSpace(a, s[k], w);
      SplitAtSpace(a, s[k], w);
      if w == "" {
        assert Split(a) + [] == Split(a) && Tokens(a) + [] == Tokens(a);
      } else {
        SplitWord(w);
        SqueezeAppend(a, w);
      }
    }
  }

  lemma SqueezeAppend(a: string, w: string)
    requires Word(w)
    ensures Tokens(Join(Split(a) + [w], " ")) == Tokens(Squeeze(a)) + Tokens(w)
  {
    var words := Split(a) + [w];
    assert words[..|words| - 1] == Split(a);
    if Split(a) == [] {
      assert [] + Tokens(w) == Tokens(w);
    } else {
      TokensAtSpace(Squeeze(a), ' ', w);
    }
  }

  // Normalised declarations.

  /** The token lists of the parts, joined by `OR`. */
  function OrTokens(parts: seq<string>): seq<string>
    requires parts != []
  {
    if |parts| == 1 then Tokens(parts[0])
    else OrTokens(parts[..|parts| - 1]) + ["OR"] + Tokens(parts[|parts| - 1])
  }

  lemma OrIsToken()
    ensures Tokens("OR") == ["OR"]
  {
    assert "OR"[..1] == "O" && "O"[..0] == "";
    assert PadParens("O") == "O" && PadParens("OR") == "OR";
    SplitWord("OR");
  }

  lemma TokensAtOr(a: string, b: string)
    ensures Tokens(a + " OR " + b) == Tokens(a) + ["OR"] + Tokens(b)
  {
    assert a + " OR " + b == (a + [' '] + "OR") + [' '] + b;
    TokensAtSpace(a + [' '] + "OR", ' ', b);
    TokensAtSpace(a, ' ', "OR");
    OrIsToken();
  }

  lemma {:induction false} JoinedTokens(parts: seq<string>)
    requires parts != []
    ensures Tokens(Join(SqueezeAll(parts), " OR ")) == OrTokens(parts)
    decreases |parts|
  {
    var init, last := parts[..|parts| - 1], parts[|parts| - 1];
    TokensSqueeze(last);
    if |parts| > 1 {
      assert SqueezeAll(parts)[..|parts| - 1] == SqueezeAll(init);
      JoinedTokens(init);
      TokensAtOr(Join(SqueezeAll(init), " OR "), Squeeze(last));
    }
  }

  predicate NoneBlank(parts: seq<string>) {
    forall i :: 0 <= i < |parts| ==> !Blank(parts[i])
  }

  /** What the builder accepts of a declaration, in terms of the declaration: without `/` its own tokens print a tree;
      with `/` no part is blank and the parts' tokens joined by `OR` print a tree. */
  lemma DeclarationAccepted(e: string)
    ensures Normalize(e).Some? && IsPrinted(Tokens(Normalize(e).value)) <==>
            if '/' !in e then IsPrinted(Tokens(e)) else NoneBlank(SplitSlash(e)) && IsPrinted(OrTokens(SplitSlash(e)))
  {
    if '/' !in e { TokensSqueeze(e); } else { JoinedTokens(SplitSlash(e)); }
  }

  function OrTrees(a: Disj, b: Disj): Disj {
    match a case One(c) => Or(c, b) case Or(c, rest) => Or(c, OrTrees(rest, b))
  }

  lemma {:induction false} PrintOrTrees(a: Disj, b: Disj)
    requires OkDisj(a) && OkDisj(b)
    ensures OkDisj(OrTrees(a, b)) && PrintDisj(OrTrees(a, b)) == PrintDisj(a) + ["OR"] + PrintDisj(b)
    decreases a
  {
    match a
    case One(_) =>
    case Or(c, rest) =>
      PrintOrTrees(rest, b);
      assert PrintDisj(OrTrees(a, b)) == PrintConj(c) + ["OR"] + (PrintDisj(rest) + ["OR"] + PrintDisj(b));
  }

  /** When every `/`-part is an expression of its own, the declaration is accepted as their disjunction. */
  lemma {:induction false} PartsSuffice(parts: seq<string>)
    requires parts != [] && forall i :: 0 <= i < |parts| ==> IsPrinted(Tokens(parts[i]))
    ensures IsPrinted(OrTokens(parts))
    decreases |parts|
  {
    if |parts| > 1 {
      PartsSuffice(parts[..|parts| - 1]);
      var a :| OkDisj(a) && PrintDisj(a) == OrTokens(parts[..|parts| - 1]);
      var b :| OkDisj(b) && PrintDisj(b) == Tokens(parts[|parts| - 1]);
      PrintOrTrees(a, b);
    }
  }

  // Idempotence.

  function OrWords(parts: seq<string>): seq<string>
    requires parts != []
  {
    if |parts| == 1 then Split(parts[0])
    else OrWords(parts[..|parts| - 1]) + ["OR"] + Split(parts[|parts| - 1])
  }

  lemma {:induction false} JoinConcat(a: seq<string>, b: seq<string>)
    requires a != [] && b != []
    ensures Join(a + b, " ") == Join(a, " ") + " " + Join(b, " ")
    decreases |b|
  {
    assert (a + b)[..|a + b| - 1] == a + b[..|b| - 1];
    if |b| == 1 {
      assert a + b[..0] == a;
    } else {
      JoinConcat(a, b[..|b| - 1]);
    }
  }

  lemma JoinAtOr(a: seq<string>, b: seq<string>)
    requires a != [] && b != []
    ensures Join(a + ["OR"] + b, " ") == Join(a, " ") + " OR " + Join(b, " ")
  {
    JoinConcat(a + ["OR"], b);
    JoinConcat(a, ["OR"]);
  }

  lemma {:induction false} JoinedWords(parts: seq<string>)
    requires parts != [] && forall i :: 0 <= i < |parts| ==> !Blank(parts[i])
    ensures OrWords(parts) != [] && Join(SqueezeAll(parts), " OR ") == Join(OrWords(parts), " ")
    decreases |parts|
  {
    var init, last := parts[..|parts| - 1], parts[|parts| - 1];
    SplitBlank(last);
    if |parts| > 1 {
      assert SqueezeAll(parts)[..|parts| - 1] == SqueezeAll(init);
      JoinedWords(init);
      JoinAtOr(OrWords(init), Split(last));
    }
  }

  lemma {:induction false} OrWordsAreWords(parts: seq<string>)
    requires parts != []
    ensures forall i :: 0 <= i < |OrWords(parts)| ==> Word(OrWords(parts)[i])
    decreases |parts|
  {
    SplitWords(parts[|parts| - 1]);
    if |parts| > 1 { OrWordsAreWords(parts[..|parts| - 1]); }
  }

  lemma {:induction false} SplitChars(s: string, w: string, c: char)
    requires w in Split(s) && c in w
    ensures c in s
    decreases |s|
  {
    var init := s[..|s| - 1];
    assert s == init + [s[|s| - 1]];
    if w in Split(init) {
      SplitChars(init, w, c);
    } else if EndsWord(init) && c in Split(init)[|Split(init)| - 1] {
      SplitChars(init, Split(init)[|Split(init)| - 1], c);
    }
  }

  lemma {:induction false} JoinChars(words: seq<string>, sep: string, c: char)
    requires c in Join(words, sep)
    ensures c in sep || exists w :: w in words && c in w
    decreases |words|
  {
    if |words| == 1 {
      assert words[0] in words;
    } else {
      var init, last := words[..|words| - 1], words[|words| - 1];
      assert last in words && words == init + [last];
      if c in Join(init, sep) { JoinChars(init, sep, c); }
    }
  }

  lemma SqueezeNoSlash(s: string)
    requires '/' !in s
    ensures '/' !in Squeeze(s)
  {
    if '/' in Squeeze(s) {
      JoinChars(Split(s), " ", '/');
      var w :| w in Split(s) && '/' in w;
      SplitChars(s, w, '/');
    }
  }

  lemma {:induction false} PartsNoSlash(s: string)
    ensures forall i :: 0 <= i < |SplitSlash(s)| ==> '/' !in SplitSlash(s)[i]
  {
    if s != "" { PartsNoSlash(s[..|s| - 1]); }
  }

  lemma NormalizedNoSlash(e: string)
    requires Normalize(e).Some?
    ensures '/' !in Normalize(e).value
  {
    if '/' !in e {
      SqueezeNoSlash(e);
    } else {
      var parts := SplitSlash(e);
      PartsNoSlash(e);
      forall i | 0 <= i < |parts| ensures '/' !in SqueezeAll(parts)[i] { SqueezeNoSlash(parts[i]); }
      if '/' in Normalize(e).value { JoinChars(SqueezeAll(parts), " OR ", '/'); }
    }
  }

  /** Normalising is idempotent, and leaves no `/`. */
  lemma NormalizeIdempotent(e: string)
    requires Normalize(e).Some?
    ensures Normalize(Normalize(e).value) == Normalize(e)
  {
    NormalizedNoSlash(e);
    if '/' !in e {
      SplitWords(e);
      SplitJoin(Split(e));
    } else {
      JoinedWords(SplitSlash(e));
      OrWordsAreWords(SplitSlash(e));
      SplitJoin(OrWords(SplitSlash(e)));
    }
  }
}
