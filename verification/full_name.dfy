/**
 * Splitting a client's `full_name` into first name, middle initial, last
 * name and name extension, for the migration that adds those columns.
 *
 * The expected shape is `FIRST [MI.] LAST [EXT]`: the first token is the
 * first name; a trailing extension such as JR or III is taken off; then a
 * one- or two-letter token, optionally followed by a dot, is the middle
 * initial; whatever remains is the (possibly compound) last name. All four
 * parts come back upper-cased, extension and initial without their dots.
 */
module FullName {
  import opened Text

  /** The recognised name extensions. */
  const NameExtensions: set<string> := {"JR", "SR", "II", "III", "IV", "V", "VI", "VII", "VIII"}

  datatype NameParts = NameParts(fname: string, mi: string, lname: string, ext: string)

  /** `rstrip(".")`: every trailing dot removed. */
  function RStripDots(s: string): (r: string)
    decreases |s|
    ensures |r| <= |s| && r == s[..|r|]
    ensures |r| == 0 || r[|r| - 1] != '.'
    ensures forall k :: |r| <= k < |s| ==> s[k] == '.'
  {
    if |s| > 0 && s[|s| - 1] == '.' then RStripDots(s[..|s| - 1]) else s
  }

  /** A token as compared with the extension list: upper-cased, trailing dots removed. */
  function Norm(t: string): (r: string)
    ensures IsUpperCase(r)
  {
    RStripDots(Upper(t))
  }

  /** One or two letters, then an optional dot. */
  predicate IsInitialToken(t: string) {
    var core := if |t| > 0 && t[|t| - 1] == '.' then t[..|t| - 1] else t;
    && 1 <= |core| <= 2
    && forall k :: 0 <= k < |core| ==> IsLetter(core[k])
  }

  // ---- tokens -------------------------------------------------------------

  /** No whitespace, and at least one character. */
  predicate IsToken(t: string) {
    |t| > 0 && forall k :: 0 <= k < |t| ==> !IsSpace(t[k])
  }

  predicate AllTokens(ts: seq<string>) {
    forall i :: 0 <= i < |ts| ==> IsToken(ts[i])
  }

  /** The length of the leading run of non-space characters. */
  function TokenLength(s: string): (n: nat)
    decreases |s|
    ensures n <= |s|
    ensures forall k :: 0 <= k < n ==> !IsSpace(s[k])
    ensures n == |s| || IsSpace(s[n])
  {
    if |s| == 0 || IsSpace(s[0]) then 0 else 1 + TokenLength(s[1..])
  }

  /** `str.split()`: the maximal runs of non-space characters, in order. */
  function Split(s: string): (ts: seq<string>)
    decreases |s|
    ensures AllTokens(ts)
    ensures |ts| == 0 <==> forall k :: 0 <= k < |s| ==> IsSpace(s[k])
  {
    if |s| == 0 then []
    else if IsSpace(s[0]) then Split(s[1..])
    else
      var n := TokenLength(s);
      assert s[..n][0] == s[0];
      [s[..n]] + Split(s[n..])
  }

  /** `" ".join(ts)`. */
  function Join(ts: seq<string>): string
    decreases |ts|
  {
    if |ts| == 0 then "" else if |ts| == 1 then ts[0] else ts[0] + " " + Join(ts[1..])
  }

  function UpperAll(ts: seq<string>): (us: seq<string>)
    ensures |us| == |ts| && forall i :: 0 <= i < |ts| ==> us[i] == Upper(ts[i])
  {
    seq(|ts|, i requires 0 <= i < |ts| => Upper(ts[i]))
  }

  // ---- the parser -----------------------------------------------------------

  /** Take a trailing name extension off the tokens after the first name. */
  function TakeExtension(rest: seq<string>): (r: (seq<string>, string))
    ensures r.1 == "" || r.1 in NameExtensions
    ensures r.1 != "" <==> |rest| > 0 && Norm(rest[|rest| - 1]) in NameExtensions
    ensures r.1 != "" ==> r.0 + [rest[|rest| - 1]] == rest && r.1 == Norm(rest[|rest| - 1])
    ensures r.1 == "" ==> r.0 == rest
  {
    if |rest| > 0 && Norm(rest[|rest| - 1]) in NameExtensions then
      assert rest[..|rest| - 1] + [rest[|rest| - 1]] == rest;
      (rest[..|rest| - 1], Norm(rest[|rest| - 1]))
    else
      (rest, "")
  }

  /** An initial token normalises to its one or two letters, upper-cased. */
  lemma InitialNorm(t: string)
    requires IsInitialToken(t)
    ensures 1 <= |Norm(t)| <= 2 && forall k :: 0 <= k < |Norm(t)| ==> 'A' <= Norm(t)[k] <= 'Z'
  {
    var u := Upper(t);
    var core := if |t| > 0 && t[|t| - 1] == '.' then t[..|t| - 1] else t;
    assert forall k :: 0 <= k < |core| ==> u[k] != '.' && IsLetter(u[k]) && !IsLower(u[k]);
    if |t| > 0 && t[|t| - 1] == '.' {
      assert u[..|u| - 1] == Upper(core);
      assert RStripDots(u) == RStripDots(u[..|u| - 1]);
    }
  }

  /** Take a leading middle initial off the tokens between first name and extension. */
  function TakeInitial(middle: seq<string>): (r: (string, seq<string>))
    ensures r.0 != "" <==> |middle| > 0 && IsInitialToken(middle[0])
    ensures r.0 != "" ==> [middle[0]] + r.1 == middle && r.0 == Norm(middle[0])
    ensures r.0 != "" ==> 1 <= |r.0| <= 2 && forall k :: 0 <= k < |r.0| ==> 'A' <= r.0[k] <= 'Z'
    ensures r.0 == "" ==> r.1 == middle
  {
    if |middle| > 0 && IsInitialToken(middle[0]) then
      InitialNorm(middle[0]);
      (Norm(middle[0]), middle[1..])
    else
      ("", middle)
  }

  /**
   * The parse of an already split name (the `tokens` of the source); the
   * final upper-casing of the initial and the extension changes nothing.
   */
  function ParseTokens(tokens: seq<string>): (r: NameParts)
    ensures |tokens| > 0 ==>
              var (middle, ext) := TakeExtension(tokens[1..]);
              var (mi, last) := TakeInitial(middle);
              r == NameParts(Upper(tokens[0]), mi, Upper(Join(last)), ext)
  {
    if |tokens| == 0 then NameParts("", "", "", "")
    else
      var (middle, ext) := TakeExtension(tokens[1..]);
      var (mi, last) := TakeInitial(middle);
      UpperKeepsUpper(mi);
      UpperKeepsUpper(ext);
      NameParts(Upper(tokens[0]), Upper(mi), Upper(Join(last)), Upper(ext))
  }

  /**
   * `parse_full_name`: a blank name gives four empty parts; otherwise the
   * first token is the first name, and the extension and initial, when
   * present, are a listed extension and one or two capital letters.
   */
  function ParseFullName(fullName: string): (r: NameParts)
    ensures (forall k :: 0 <= k < |fullName| ==> IsSpace(fullName[k])) <==> r.fname == ""
    ensures r.fname == "" ==> r == NameParts("", "", "", "")
    ensures r.fname != "" ==> r.fname == Upper(Split(fullName)[0])
    ensures IsUpperCase(r.fname) && IsUpperCase(r.mi) && IsUpperCase(r.lname) && IsUpperCase(r.ext)
    ensures r.ext == "" || r.ext in NameExtensions
    ensures r.mi == "" || (1 <= |r.mi| <= 2 && forall k :: 0 <= k < |r.mi| ==> 'A' <= r.mi[k] <= 'Z')
  {
    var tokens := Split(fullName);
    assert |tokens| > 0 ==> IsToken(tokens[0]);
    ParseTokens(tokens)
  }

  // ---- nothing is lost ----------------------------------------------------

  lemma {:induction false} TokenLengthOf(t: string, tail: string)
    decreases |t|
    requires forall k :: 0 <= k < |t| ==> !IsSpace(t[k])
    requires |tail| == 0 || IsSpace(tail[0])
    ensures TokenLength(t + tail) == |t|
  {
    if |t| > 0 {
      assert (t + tail)[1..] == t[1..] + tail;
      TokenLengthOf(t[1..], tail);
    } else {
      assert t + tail == tail;
    }
  }

  /** Splitting a token followed by a space and more text peels off that token. */
  lemma SplitToken(t: string, tail: string)
    requires IsToken(t)
    ensures Split(t + " " + tail) == [t] + Split(tail)
    ensures Split(t) == [t]
  {
    var s := t + " " + tail;
    TokenLengthOf(t, " " + tail);
    assert s[..|t|] == t && s[|t|..] == " " + tail && (" " + tail)[1..] == tail;
    TokenLengthOf(t, "");
    assert t + "" == t && t[|t|..] == "";
  }

  /**
   * `split()` skips leading whitespace and peels off the first maximal run
   * of non-space characters as its first token. With `Split`'s own contract
   * (no token exactly when all is whitespace) this pins the split of every
   * text: the maximal non-space runs, in order.
   */
  lemma {:induction false} SplitPeels(w: string, t: string, rest: string)
    decreases |w|
    requires forall k :: 0 <= k < |w| ==> IsSpace(w[k])
    requires IsToken(t) && (|rest| == 0 || IsSpace(rest[0]))
    ensures Split(w + t + rest) == [t] + Split(rest)
  {
    var s := w + t + rest;
    if |w| > 0 {
      assert s[1..] == w[1..] + t + rest;
      SplitPeels(w[1..], t, rest);
    } else {
      assert s == t + rest;
      TokenLengthOf(t, rest);
      assert s[..|t|] == t && s[|t|..] == rest;
    }
  }

  /** `" ".join` then `split()` gives the tokens back. */
  lemma {:induction false} SplitJoin(ts: seq<string>)
    decreases |ts|
    requires AllTokens(ts)
    ensures Split(Join(ts)) == ts
  {
    if |ts| == 1 {
      SplitToken(ts[0], "");
    } else if |ts| > 1 {
      SplitJoin(ts[1..]);
      SplitToken(ts[0], Join(ts[1..]));
      assert [ts[0]] + ts[1..] == ts;
    }
  }

  /** Upper-casing commutes with joining. */
  lemma {:induction false} UpperJoin(ts: seq<string>)
    decreases |ts|
    ensures Upper(Join(ts)) == Join(UpperAll(ts))
  {
    if |ts| > 1 {
      UpperJoin(ts[1..]);
      assert UpperAll(ts)[1..] == UpperAll(ts[1..]);
      assert Upper(ts[0] + " " + Join(ts[1..])) == Upper(ts[0]) + " " + Upper(Join(ts[1..]));
    }
  }

  lemma UpperTokens(ts: seq<string>)
    requires AllTokens(ts)
    ensures AllTokens(UpperAll(ts))
  {
  }

  /** The words of the last name survive upper-casing, joining and re-splitting. */
  lemma LastNameWords(last: seq<string>)
    requires AllTokens(last)
    ensures Split(Upper(Join(last))) == UpperAll(last)
  {
    UpperJoin(last);
    UpperTokens(last);
    SplitJoin(UpperAll(last));
  }

  lemma UpperAllAppend(a: seq<string>, b: seq<string>)
    ensures UpperAll(a + b) == UpperAll(a) + UpperAll(b)
  {
  }

  lemma ExtensionPieces(rest: seq<string>, middle: seq<string>, ext: string)
    requires (middle, ext) == TakeExtension(rest)
    ensures rest == middle + (if ext != "" then [rest[|rest| - 1]] else [])
  {
  }

  lemma InitialPieces(middle: seq<string>, mi: string, last: seq<string>)
    requires (mi, last) == TakeInitial(middle)
    ensures middle == (if mi != "" then [middle[0]] else []) + last
  {
  }

  /** A run of consecutive tokens is made of tokens. */
  lemma TokensSlice(ts: seq<string>, part: seq<string>, i: nat)
    requires AllTokens(ts) && i + |part| <= |ts| && part == ts[i..i + |part|]
    ensures AllTokens(part)
  {
    assert forall k :: 0 <= k < |part| ==> part[k] == ts[i + k];
  }

  /** Putting back the pieces taken off a token list gives the list. */
  lemma PiecesReassemble(tokens: seq<string>, middle: seq<string>, pre: seq<string>, last: seq<string>, post: seq<string>)
    requires |tokens| > 0
    requires tokens[1..] == middle + post && middle == pre + last
    ensures tokens == [tokens[0]] + pre + last + post
  {
    assert [tokens[0]] + tokens[1..] == tokens;
  }

  /** Upper-casing a list split in four upper-cases each piece. */
  lemma UpperAllPieces(t0: string, pre: seq<string>, last: seq<string>, post: seq<string>)
    ensures UpperAll([t0] + pre + last + post) == [Upper(t0)] + UpperAll(pre) + UpperAll(last) + UpperAll(post)
  {
    UpperAllAppend([t0] + pre + last, post);
    UpperAllAppend([t0] + pre, last);
    UpperAllAppend([t0], pre);
  }

  /** The upper-cased tokens, told apart into the parts of a parse. */
  lemma UpperPieces(tokens: seq<string>, pre: seq<string>, last: seq<string>, post: seq<string>, r: NameParts)
    requires |tokens| > 0 && tokens == [tokens[0]] + pre + last + post && AllTokens(last)
    requires r.fname == Upper(tokens[0]) && r.lname == Upper(Join(last))
    requires pre == (if r.mi != "" && |tokens| > 1 then [tokens[1]] else [])
    requires r.mi != "" ==> |pre| == 1
    requires post == (if r.ext != "" then [tokens[|tokens| - 1]] else [])
    ensures UpperAll(tokens) == [r.fname]
                                + (if r.mi != "" then [Upper(tokens[1])] else [])
                                + Split(r.lname)
                                + (if r.ext != "" then [Upper(tokens[|tokens| - 1])] else [])
  {
    UpperAllPieces(tokens[0], pre, last, post);
    LastNameWords(last);
  }

  lemma TokensAccountedFor(tokens: seq<string>)
    requires |tokens| > 0 && AllTokens(tokens)
    ensures var r := ParseTokens(tokens);
            && UpperAll(tokens) == [r.fname]
                                   + (if r.mi != "" then [Upper(tokens[1])] else [])
                                   + Split(r.lname)
                                   + (if r.ext != "" then [Upper(tokens[|tokens| - 1])] else [])
            && (r.mi != "" ==> r.mi == Norm(tokens[1]))
            && (r.ext != "" ==> r.ext == Norm(tokens[|tokens| - 1]))
  {
    var rest := tokens[1..];
    var middle := TakeExtension(rest).0;
    var ext := TakeExtension(rest).1;
    var mi := TakeInitial(middle).0;
    var last := TakeInitial(middle).1;
    ExtensionPieces(rest, middle, ext);
    InitialPieces(middle, mi, last);
    var pre := if mi != "" then [tokens[1]] else [];
    var post := if ext != "" then [tokens[|tokens| - 1]] else [];
    PiecesReassemble(tokens, middle, pre, last, post);
    TokensSlice(tokens, last, 1 + |pre|);
    var r := ParseTokens(tokens);
    assert r == NameParts(Upper(tokens[0]), mi, Upper(Join(last)), ext);
    UpperPieces(tokens, pre, last, post, r);
  }

  /**
   * Every token of the name is accounted for, in order: upper-cased, the
   * tokens are the first name, then the initial's token (if one was taken),
   * then the words of the last name, then the extension's token (if one
   * was taken); the initial and extension are those tokens without dots.
   */
  lemma ParseKeepsTokens(fullName: string)
    ensures var tokens := Split(fullName);
            var r := ParseFullName(fullName);
            |tokens| > 0 ==>
              && UpperAll(tokens) == [r.fname]
                                     + (if r.mi != "" then [Upper(tokens[1])] else [])
                                     + Split(r.lname)
                                     + (if r.ext != "" then [Upper(tokens[|tokens| - 1])] else [])
              && (r.mi != "" ==> r.mi == Norm(tokens[1]))
              && (r.ext != "" ==> r.ext == Norm(tokens[|tokens| - 1]))
  {
    if |Split(fullName)| > 0 {
      TokensAccountedFor(Split(fullName));
    }
  }

  /** An extension is taken exactly when the last of at least two tokens normalises to one. */
  lemma ExtensionTaken(fullName: string)
    ensures var tokens := Split(fullName);
            ParseFullName(fullName).ext != "" <==>
              |tokens| >= 2 && Norm(tokens[|tokens| - 1]) in NameExtensions
  {
    var tokens := Split(fullName);
    if |tokens| >= 2 {
      assert tokens[1..][|tokens| - 2] == tokens[|tokens| - 1];
    }
  }

  /**
   * An initial is taken exactly when the token after the first name is an
   * initial token and is not the extension just taken off.
   */
  lemma InitialTaken(fullName: string)
    ensures var tokens := Split(fullName);
            var r := ParseFullName(fullName);
            r.mi != "" <==> |tokens| >= (if r.ext != "" then 3 else 2) && IsInitialToken(tokens[1])
  {
    var tokens := Split(fullName);
    if |tokens| > 0 {
      var rest := tokens[1..];
      var (middle, ext) := TakeExtension(rest);
      if |middle| > 0 {
        assert middle[0] == rest[0] == tokens[1];
      }
    }
  }

  // ---- worked examples --------------------------------------------------------

  /** A name written as its tokens joined by single spaces parses as those tokens do. */
  lemma ParseJoined(name: string, ts: seq<string>)
    requires AllTokens(ts) && Join(ts) == name
    ensures ParseFullName(name) == ParseTokens(ts)
  {
    SplitJoin(ts);
  }

  /** An upper-case word without a trailing dot is its own normal form. */
  lemma NormOfWord(t: string)
    requires IsUpperCase(t) && (|t| == 0 || t[|t| - 1] != '.')
    ensures Norm(t) == t
  {
    UpperKeepsUpper(t);
  }

  /** An upper-case initial followed by a dot normalises to the letter. */
  lemma NormOfInitial(t: string)
    requires |t| == 2 && 'A' <= t[0] <= 'Z' && t[1] == '.'
    ensures Norm(t) == t[..1]
  {
    UpperKeepsUpper(t);
    assert RStripDots(t) == RStripDots(t[..1]);
  }

  lemma JericTokens(ts: seq<string>)
    requires ts == ["JERIC", "G.", "BOLEZA", "JR"]
    ensures ParseTokens(ts) == NameParts("JERIC", "G", "BOLEZA", "JR")
  {
    NormOfWord("JR");
    NormOfInitial("G.");
    assert IsInitialToken("G.") by { assert "G."[..1] == "G"; }
    UpperKeepsUpper("JERIC");
    UpperKeepsUpper("BOLEZA");
    var rest := ["G.", "BOLEZA", "JR"];
    assert ts[1..] == rest;
    assert rest[..2] == ["G.", "BOLEZA"];
    assert Norm(rest[2]) in NameExtensions;
    assert TakeExtension(ts[1..]) == (["G.", "BOLEZA"], "JR");
    assert "G."[..1] == "G";
    assert ["G.", "BOLEZA"][1..] == ["BOLEZA"];
    assert TakeInitial(["G.", "BOLEZA"]) == ("G", ["BOLEZA"]);
  }

  /** Four tokens joined with single spaces. */
  lemma JoinFour(a: string, b: string, c: string, d: string)
    ensures Join([a, b, c, d]) == a + " " + b + " " + c + " " + d
  {
    var ts := [a, b, c, d];
    assert ts[1..] == [b, c, d] && ts[1..][1..] == [c, d] && ts[1..][1..][1..] == [d];
    assert Join([c, d]) == c + " " + d;
    assert Join([b, c, d]) == b + " " + (c + " " + d);
  }

  lemma ExampleJeric()
    ensures ParseFullName("JERIC G. BOLEZA JR") == NameParts("JERIC", "G", "BOLEZA", "JR")
  {
    var ts := ["JERIC", "G.", "BOLEZA", "JR"];
    assert AllTokens(ts) && Join(ts) == "JERIC G. BOLEZA JR" by {
      JoinFour("JERIC", "G.", "BOLEZA", "JR");
    }
    JericTokens(ts);
    ParseJoined("JERIC G. BOLEZA JR", ts);
  }

  lemma MariaTokens(ts: seq<string>)
    requires ts == ["MARIA", "SANTOS"]
    ensures ParseTokens(ts) == NameParts("MARIA", "", "SANTOS", "")
  {
    NormOfWord("SANTOS");
    UpperKeepsUpper("MARIA");
    assert TakeExtension(ts[1..]) == (["SANTOS"], "");
    assert TakeInitial(["SANTOS"]) == ("", ["SANTOS"]);
  }
  lemma MariaJoined(ts: seq<string>)
    requires ts == ["MARIA", "SANTOS"]
    ensures AllTokens(ts) && Join(ts) == "MARIA SANTOS"
  {
    assert ts[1..] == ["SANTOS"];
    assert Join(ts[1..]) == "SANTOS";
  }

  lemma ExampleMaria()
    ensures ParseFullName("MARIA SANTOS") == NameParts("MARIA", "", "SANTOS", "")
  {
    var ts := ["MARIA", "SANTOS"];
    MariaTokens(ts);
    MariaJoined(ts);
    ParseJoined("MARIA SANTOS", ts);
  }

  lemma JuanTokens(ts: seq<string>)
    requires ts == ["JUAN", "DELA", "CRUZ", "III"]
    ensures ParseTokens(ts) == NameParts("JUAN", "", "DELA CRUZ", "III")
  {
    NormOfWord("III");
    UpperKeepsUpper("JUAN");
    UpperKeepsUpper("DELA CRUZ");
    var rest := ["DELA", "CRUZ", "III"];
    assert ts[1..] == rest;
    assert rest[..2] == ["DELA", "CRUZ"];
    assert Norm(rest[2]) in NameExtensions;
    assert TakeExtension(ts[1..]) == (["DELA", "CRUZ"], "III");
    assert TakeInitial(["DELA", "CRUZ"]) == ("", ["DELA", "CRUZ"]);
    assert Join(["DELA", "CRUZ"]) == "DELA CRUZ";
  }
  lemma ExampleJuan()
    ensures ParseFullName("JUAN DELA CRUZ III") == NameParts("JUAN", "", "DELA CRUZ", "III")
  {
    var ts := ["JUAN", "DELA", "CRUZ", "III"];
    assert AllTokens(ts) && Join(ts) == "JUAN DELA CRUZ III" by {
      JoinFour("JUAN", "DELA", "CRUZ", "III");
    }
    JuanTokens(ts);
    ParseJoined("JUAN DELA CRUZ III", ts);
  }

  lemma AnaTokens(ts: seq<string>)
    requires ts == ["ANA", "M.", "REYES"]
    ensures ParseTokens(ts) == NameParts("ANA", "M", "REYES", "")
  {
    NormOfWord("REYES");
    NormOfInitial("M.");
    assert IsInitialToken("M.") by { assert "M."[..1] == "M"; }
    UpperKeepsUpper("ANA");
    assert TakeExtension(ts[1..]) == (["M.", "REYES"], "");
    assert "M."[..1] == "M";
    assert ["M.", "REYES"][1..] == ["REYES"];
    assert TakeInitial(["M.", "REYES"]) == ("M", ["REYES"]);
  }
  lemma AnaJoined(ts: seq<string>)
    requires ts == ["ANA", "M.", "REYES"]
    ensures AllTokens(ts) && Join(ts) == "ANA M. REYES"
  {
    assert ts[2..] == ["REYES"];
    assert Join(ts[2..]) == "REYES";
    assert ts[1..] == ["M.", "REYES"];
    assert Join(ts[1..]) == "M. REYES";
  }

  lemma ExampleAna()
    ensures ParseFullName("ANA M. REYES") == NameParts("ANA", "M", "REYES", "")
  {
    var ts := ["ANA", "M.", "REYES"];
    AnaTokens(ts);
    AnaJoined(ts);
    ParseJoined("ANA M. REYES", ts);
  }


  // ---- a two-letter surname -----------------------------------------------------

  lemma NgTokens(ts: seq<string>)
    requires ts == ["JOHN", "NG"]
    ensures ParseTokens(ts) == NameParts("JOHN", "NG", "", "")
    ensures ParseTokensCorrected(ts) == NameParts("JOHN", "", "NG", "")
  {
    NormOfWord("NG");
    UpperKeepsUpper("JOHN");
    assert TakeExtension(ts[1..]) == (["NG"], "");
    assert IsInitialToken("NG");
    assert TakeInitial(["NG"]) == ("NG", []);
  }

  lemma NgJoined(ts: seq<string>)
    requires ts == ["JOHN", "NG"]
    ensures AllTokens(ts) && Join(ts) == "JOHN NG"
  {
  }

  /**
   * As written, a name of just a first name and a two-letter surname loses
   * its surname: the surname is taken for a middle initial and the last
   * name comes back empty.
   */
  lemma TwoLetterSurnameLost()
    ensures ParseFullName("JOHN NG") == NameParts("JOHN", "NG", "", "")
    ensures ParseFullNameCorrected("JOHN NG") == NameParts("JOHN", "", "NG", "")
  {
    var ts := ["JOHN", "NG"];
    NgTokens(ts);
    NgJoined(ts);
    ParseJoined("JOHN NG", ts);
    SplitJoin(ts);
  }

  /** Take a middle initial only when a token for the last name is left after it. */
  function TakeInitialKeepingSurname(middle: seq<string>): (r: (string, seq<string>))
    ensures |middle| > 0 ==> |r.1| > 0
    ensures r.0 != "" <==> |middle| >= 2 && IsInitialToken(middle[0])
  {
    if |middle| >= 2 then TakeInitial(middle) else ("", middle)
  }

  /** The parse with the initial taken only when a last name remains. */
  function ParseTokensCorrected(tokens: seq<string>): (r: NameParts)
    ensures |tokens| > 0 ==>
              var (middle, ext) := TakeExtension(tokens[1..]);
              var (mi, last) := TakeInitialKeepingSurname(middle);
              r == NameParts(Upper(tokens[0]), mi, Upper(Join(last)), ext)
  {
    if |tokens| == 0 then NameParts("", "", "", "")
    else
      var (middle, ext) := TakeExtension(tokens[1..]);
      var (mi, last) := TakeInitialKeepingSurname(middle);
      UpperKeepsUpper(mi);
      UpperKeepsUpper(ext);
      NameParts(Upper(tokens[0]), Upper(mi), Upper(Join(last)), Upper(ext))
  }

  /**
   * `parse_full_name` as its expected shape `FIRST [MI.] LAST [EXT]`
   * intends: whenever any token is left between the first name and the
   * extension, the last name is not empty.
   */
  function ParseFullNameCorrected(fullName: string): (r: NameParts)
    ensures var tokens := Split(fullName);
            |tokens| > 0 ==> (r.lname != "" <==> |TakeExtension(tokens[1..]).0| > 0)
  {
    var tokens := Split(fullName);
    if |tokens| > 0 then
      var (middle, ext) := TakeExtension(tokens[1..]);
      var (mi, last) := TakeInitialKeepingSurname(middle);
      JoinNonEmpty(last);
      ParseTokensCorrected(tokens)
    else
      ParseTokensCorrected(tokens)
  }

  /** Joining no tokens gives the empty string, and joining any gives a non-empty one. */
  lemma JoinNonEmpty(ts: seq<string>)
    requires |ts| > 0 ==> ts[0] != ""
    ensures Join(ts) == "" <==> |ts| == 0
  {
    if |ts| > 1 {
      assert |Join(ts)| >= |ts[0]|;
    }
  }

  /** The correction changes nothing where the parse as written keeps a last name. */
  lemma CorrectionConservative(fullName: string)
    requires ParseFullName(fullName).lname != ""
    ensures ParseFullNameCorrected(fullName) == ParseFullName(fullName)
  {
  }
}
