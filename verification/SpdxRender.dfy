/** Which texts are licenses, and that every tree written out with single spaces is a valid expression of it. */
module SpdxRender {
  import opened Text
  import opened Spdx
  import opened SpdxText
  import opened SpdxParts
  import opened Wrappers

  predicate LetterOrDigit(c: char) {
    'A' <= c <= 'Z' || 'a' <= c <= 'z' || '0' <= c <= '9'
  }

  /** Letters, digits and `: . _ + -`, at least one character, and none of the three operator words. */
  predicate TokenText(t: string) {
    && t != "" && t != "AND" && t != "OR" && t != "WITH"
    && forall i :: 0 <= i < |t| ==>
         LetterOrDigit(t[i]) || t[i] == ':' || t[i] == '.' || t[i] == '_' || t[i] == '+' || t[i] == '-'
  }

  lemma TokenCharExactly(c: char)
    ensures TokenChar(c) <==> LetterOrDigit(c) || c == ':' || c == '.' || c == '_' || c == '+' || c == '-'
  {
  }

  /** A license needs a letter or a digit beside that, an exception does not. */
  lemma LicenseExactly(t: string)
    ensures IsLicense(t) <==> TokenText(t) && exists i :: 0 <= i < |t| && LetterOrDigit(t[i])
    ensures IsException(t) <==> TokenText(t)
  {
    forall i | 0 <= i < |t| ensures TokenChar(t[i]) ==> t[i] != '(' && t[i] != ')' { TokenCharExactly(t[i]); }
    if t == "(" || t == ")" { assert !TokenChar(t[0]); }
    if LicenseToken(t) {
      forall i | 0 <= i < |t|
        ensures LetterOrDigit(t[i]) || t[i] == ':' || t[i] == '.' || t[i] == '_' || t[i] == '+' || t[i] == '-'
      {
        TokenCharExactly(t[i]);
      }
    }
    if TokenText(t) {
      forall i | 0 <= i < |t| ensures TokenChar(t[i]) { TokenCharExactly(t[i]); }
    }
  }

  // Texts of trees.

  function Render(d: Disj): string {
    Join(PrintDisj(d), " ")
  }

  ghost predicate Plain(t: string) {
    Word(t) && '(' !in t && ')' !in t
  }

  ghost predicate Separate(t: string) {
    t == "(" || t == ")" || Plain(t)
  }

  ghost predicate AllSeparate(ts: seq<string>) {
    forall i :: 0 <= i < |ts| ==> Separate(ts[i])
  }

  lemma OneToken(t: string)
    requires Separate(t)
    ensures Tokens(t) == [t]
  {
    if Plain(t) {
      PadPlain(t);
      SplitWord(t);
    } else {
      PadParen(t[0]);
      assert t == [t[0]];
      PaddedWord("", t);
      assert "" + [' '] + t + [' '] == [' '] + t + [' '];
    }
  }

  /** Tokens with single spaces between them read back. */
  lemma {:induction false} JoinedRead(ts: seq<string>)
    requires AllSeparate(ts)
    ensures Tokens(Join(ts, " ")) == ts
    decreases |ts|
  {
    if ts != [] {
      var init, last := ts[..|ts| - 1], ts[|ts| - 1];
      assert ts == init + [last];
      OneToken(last);
      if init != [] {
        JoinedRead(init);
        JoinLast(init, last, " ");
        TokensAtSpace(Join(init, " "), ' ', last);
      }
    }
  }

  lemma LicensePlain(t: string)
    requires IsException(t)
    ensures Plain(t)
  {
    LicenseExactly(t);
  }

  lemma OperatorsPlain()
    ensures Plain("AND") && Plain("OR") && Plain("WITH")
  {
  }

  lemma {:induction false} PrimarySeparate(p: Primary)
    requires OkPrimary(p)
    ensures AllSeparate(PrintPrimary(p))
    decreases p
  {
    OperatorsPlain();
    match p
    case License(id) => LicensePlain(id);
    case With(id, e) =>
      LicensePlain(id);
      LicensePlain(e);
    case Group(d) => DisjSeparate(d);
  }

  lemma {:induction false} ConjSeparate(c: Conj)
    requires OkConj(c)
    ensures AllSeparate(PrintConj(c))
    decreases c
  {
    OperatorsPlain();
    match c
    case Only(p) => PrimarySeparate(p);
    case And(p, rest) =>
      PrimarySeparate(p);
      ConjSeparate(rest);
  }

  lemma {:induction false} DisjSeparate(d: Disj)
    requires OkDisj(d)
    ensures AllSeparate(PrintDisj(d))
    decreases d
  {
    OperatorsPlain();
    match d
    case One(c) => ConjSeparate(c);
    case Or(c, rest) =>
      ConjSeparate(c);
      DisjSeparate(rest);
  }

  /** Every tree written out is a valid expression, and tokenises back to that tree's print. */
  lemma RenderedValid(d: Disj)
    requires OkDisj(d)
    ensures Tokens(Render(d)) == PrintDisj(d) && IsPrinted(Tokens(Render(d)))
  {
    DisjSeparate(d);
    JoinedRead(PrintDisj(d));
  }

  lemma LicenseTree(a: string)
    requires IsLicense(a)
    ensures OkDisj(One(Only(License(a)))) && PrintDisj(One(Only(License(a)))) == [a] == Tokens(a)
  {
    LicensePlain(a);
    OneToken(a);
    assert OkPrimary(License(a)) && PrintPrimary(License(a)) == [a];
    assert OkConj(Only(License(a))) && PrintConj(Only(License(a))) == [a];
  }

  /** Two licenses with OR between them are an expression. */
  lemma EitherValid(a: string, b: string)
    requires IsLicense(a) && IsLicense(b)
    ensures IsPrinted(Tokens(a + " OR " + b))
  {
    var left, right := One(Only(License(a))), One(Only(License(b)));
    LicenseTree(a);
    LicenseTree(b);
    TokensAtOr(a, b);
    PrintOrTrees(left, right);
    var d := OrTrees(left, right);
    assert OkDisj(d) && PrintDisj(d) == Tokens(a + " OR " + b);
  }

  lemma TwoLicenses()
    ensures IsLicense("MIT") && IsLicense("Apache-2.0")
  {
    assert "MIT"[0] == 'M' && "Apache-2.0"[0] == 'A';
    LicenseExactly("MIT");
    LicenseExactly("Apache-2.0");
  }

  lemma MitOrApache()
    ensures IsPrinted(Tokens("MIT OR Apache-2.0"))
  {
    TwoLicenses();
    EitherValid("MIT", "Apache-2.0");
    assert "MIT" + " OR " + "Apache-2.0" == "MIT OR Apache-2.0";
  }
}
