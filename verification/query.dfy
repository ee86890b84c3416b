/** The card query language of package `cards`: `ParseQuery` turns a query
    string into four groups of predicates, `Match` tests a card against them
    and `Cards.Query` collects the matching cards of a catalog. */
module CardQuery {
  import opened Wrappers
  import opened Strings
  import opened Cards

  /** A parsed query. `color` holds "w", "u", "b", "r", "g" or "m"
      (multicoloured), each possibly prefixed by "!" (not). */
  datatype Query = Query(name: seq<string>, rule: seq<string>, typeLine: seq<string>, color: seq<string>)

  const EmptyQuery: Query := Query([], [], [], [])

  /** The group a query token is routed to, by case-sensitive prefix tests
      made in this order. */
  datatype Group = NameGroup | RuleGroup | TypeGroup | ColorGroup | NotColorGroup

  function Classify(tok: string): Group {
    if HasPrefix(tok, "o:") then RuleGroup
    else if HasPrefix(tok, "t:") then TypeGroup
    else if HasPrefix(tok, "c:") then ColorGroup
    else if HasPrefix(tok, "c!") then NotColorGroup
    else NameGroup
  }

  /** `validColor`. */
  predicate ValidColor(c: char) {
    c == 'w' || c == 'u' || c == 'b' || c == 'r' || c == 'g' || c == 'm'
  }

  /** The colour entries a `c:` (or, negated, `c!`) suffix contributes:
      one per valid letter, in order; every other character is dropped. */
  function ColorEntries(letters: string, negated: bool): seq<string> {
    if |letters| == 0 then []
    else
      (if ValidColor(letters[0]) then [(if negated then "!" else "") + [letters[0]]] else [])
      + ColorEntries(letters[1..], negated)
  }

  /** The valid colour letters of a string, in order. */
  function ValidLetters(s: string): (r: string)
    ensures forall i | 0 <= i < |r| :: ValidColor(r[i])
  {
    if |s| == 0 then ""
    else (if ValidColor(s[0]) then [s[0]] else "") + ValidLetters(s[1..])
  }

  /** Every valid letter is kept, as often as it occurs; every other
      character is dropped. */
  lemma {:induction false} ValidLettersKeepsValid(s: string)
    ensures forall c :: multiset(ValidLetters(s))[c] == if ValidColor(c) then multiset(s)[c] else 0
    decreases |s|
  {
    if |s| > 0 {
      ValidLettersKeepsValid(s[1..]);
      assert s == [s[0]] + s[1..];
    }
  }

  /** Each colour entry is its valid letter, prefixed by "!" when negated. */
  lemma {:induction false} ColorEntriesSpec(letters: string, negated: bool)
    ensures |ColorEntries(letters, negated)| == |ValidLetters(letters)|
    ensures forall i | 0 <= i < |ColorEntries(letters, negated)| ::
      ColorEntries(letters, negated)[i] == (if negated then "!" else "") + [ValidLetters(letters)[i]]
    decreases |letters|
  {
    if |letters| > 0 {
      ColorEntriesSpec(letters[1..], negated);
    }
  }

  /** One iteration of `ParseQuery`'s loop. */
  function AddToken(q: Query, tok: string): Query {
    match Classify(tok)
    case RuleGroup => q.(rule := q.rule + [Lower(tok[2..])])
    case TypeGroup => q.(typeLine := q.typeLine + [Lower(tok[2..])])
    case ColorGroup => q.(color := q.color + ColorEntries(Lower(tok[2..]), false))
    case NotColorGroup => q.(color := q.color + ColorEntries(Lower(tok[2..]), true))
    case NameGroup => q.(name := q.name + [Lower(tok)])
  }

  function ParseTokens(toks: seq<string>): Query {
    if |toks| == 0 then EmptyQuery
    else AddToken(ParseTokens(toks[..|toks| - 1]), toks[|toks| - 1])
  }

  /** `ParseQuery`: the white-space separated tokens of `s`, routed in order. */
  function ParseQuery(s: string): Query {
    ParseTokens(Fields(s))
  }

  /** The tokens of `toks` routed to group `g`, in order. */
  function Select(toks: seq<string>, g: Group): seq<string> {
    if |toks| == 0 then []
    else Select(toks[..|toks| - 1], g) + (if Classify(toks[|toks| - 1]) == g then [toks[|toks| - 1]] else [])
  }

  /** The stored value of a `o:` or `t:` token: its lowercased remainder. */
  function Remainders(toks: seq<string>): (r: seq<string>)
    ensures |r| == |toks|
  {
    if |toks| == 0 then []
    else Remainders(toks[..|toks| - 1]) + [Lower(if |toks[|toks| - 1]| >= 2 then toks[|toks| - 1][2..] else "")]
  }

  function LowerAll(toks: seq<string>): (r: seq<string>)
    ensures |r| == |toks|
  {
    if |toks| == 0 then [] else LowerAll(toks[..|toks| - 1]) + [Lower(toks[|toks| - 1])]
  }

  /** Every token lands in exactly one group: the five selections together
      are as long as the token list. */
  lemma {:induction false} SelectPartition(toks: seq<string>)
    ensures |Select(toks, NameGroup)| + |Select(toks, RuleGroup)| + |Select(toks, TypeGroup)|
          + |Select(toks, ColorGroup)| + |Select(toks, NotColorGroup)| == |toks|
    decreases |toks|
  {
    if |toks| > 0 {
      SelectPartition(toks[..|toks| - 1]);
    }
  }

  /** The name group of a parsed query is the lowercased name tokens, in
      query order. */
  lemma {:induction false} ParseNameGroup(toks: seq<string>)
    ensures ParseTokens(toks).name == LowerAll(Select(toks, NameGroup))
    decreases |toks|
  {
    if |toks| > 0 {
      var n := |toks| - 1;
      var pre, t := toks[..n], toks[n];
      ParseNameGroup(pre);
      var sel := Select(pre, NameGroup);
      if Classify(t) == NameGroup {
        assert Select(toks, NameGroup) == sel + [t];
        assert (sel + [t])[..|sel|] == sel;
        assert LowerAll(sel + [t]) == LowerAll(sel) + LowerAll([t]);
      } else {
        assert Select(toks, NameGroup) == sel;
        assert ParseTokens(toks).name == ParseTokens(pre).name;
      }
    }
  }

  /** The rule group of a parsed query is the lowercased remainders of the
      `o:` tokens, in query order. */
  lemma {:induction false} ParseRuleGroup(toks: seq<string>)
    ensures ParseTokens(toks).rule == Remainders(Select(toks, RuleGroup))
    decreases |toks|
  {
    if |toks| > 0 {
      var n := |toks| - 1;
      var pre, t := toks[..n], toks[n];
      ParseRuleGroup(pre);
      var sel := Select(pre, RuleGroup);
      if Classify(t) == RuleGroup {
        assert Select(toks, RuleGroup) == sel + [t];
        assert (sel + [t])[..|sel|] == sel;
        assert Remainders(sel + [t]) == Remainders(sel) + Remainders([t]);
      } else {
        assert Select(toks, RuleGroup) == sel;
        assert ParseTokens(toks).rule == ParseTokens(pre).rule;
      }
    }
  }

  /** The type group of a parsed query is the lowercased remainders of the
      `t:` tokens, in query order. */
  lemma {:induction false} ParseTypeGroup(toks: seq<string>)
    ensures ParseTokens(toks).typeLine == Remainders(Select(toks, TypeGroup))
    decreases |toks|
  {
    if |toks| > 0 {
      var n := |toks| - 1;
      var pre, t := toks[..n], toks[n];
      ParseTypeGroup(pre);
      var sel := Select(pre, TypeGroup);
      if Classify(t) == TypeGroup {
        assert Select(toks, TypeGroup) == sel + [t];
        assert (sel + [t])[..|sel|] == sel;
        assert Remainders(sel + [t]) == Remainders(sel) + Remainders([t]);
      } else {
        assert Select(toks, TypeGroup) == sel;
        assert ParseTokens(toks).typeLine == ParseTokens(pre).typeLine;
      }
    }
  }

  /** A colour entry `ParseQuery` can produce. */
  predicate WellFormedColor(qc: string) {
    || (|qc| == 1 && ValidColor(qc[0]))
    || (|qc| == 2 && qc[0] == '!' && ValidColor(qc[1]))
  }

  /** Every colour entry of a parsed query is a valid letter, optionally negated. */
  lemma {:induction false} ParsedColorsWellFormed(toks: seq<string>)
    ensures forall i | 0 <= i < |ParseTokens(toks).color| :: WellFormedColor(ParseTokens(toks).color[i])
    decreases |toks|
  {
    if |toks| > 0 {
      var n := |toks| - 1;
      ParsedColorsWellFormed(toks[..n]);
      var t := toks[n];
      if Classify(t) == ColorGroup || Classify(t) == NotColorGroup {
        ColorEntriesSpec(Lower(t[2..]), Classify(t) == NotColorGroup);
      }
    }
  }

  /** A token routed to the colour group, negated or not. */
  predicate IsColorToken(t: string) {
    Classify(t) == ColorGroup || Classify(t) == NotColorGroup
  }

  /** The colour tokens of `toks`, in order. */
  function ColorTokens(toks: seq<string>): (r: seq<string>)
    ensures forall i | 0 <= i < |r| :: IsColorToken(r[i])
  {
    if |toks| == 0 then []
    else ColorTokens(toks[..|toks| - 1]) + (if IsColorToken(toks[|toks| - 1]) then [toks[|toks| - 1]] else [])
  }

  /** The entries of colour tokens `ts`: each token's lowercased suffix
      read as colour letters, negated for a `c!` token, in token order. */
  function EntriesOf(ts: seq<string>): seq<string>
    requires forall i | 0 <= i < |ts| :: IsColorToken(ts[i])
  {
    if |ts| == 0 then []
    else
      var t := ts[|ts| - 1];
      assert IsColorToken(t);
      EntriesOf(ts[..|ts| - 1]) + ColorEntries(Lower(t[2..]), Classify(t) == NotColorGroup)
  }

  /** The colour group of a parsed query is the entries of its colour
      tokens, in query order; the other tokens contribute none. */
  lemma {:induction false} ParseColorGroup(toks: seq<string>)
    ensures ParseTokens(toks).color == EntriesOf(ColorTokens(toks))
    decreases |toks|
  {
    if |toks| > 0 {
      var n := |toks| - 1;
      var pre, t := toks[..n], toks[n];
      ParseColorGroup(pre);
      var sel := ColorTokens(pre);
      if IsColorToken(t) {
        assert ColorTokens(toks) == sel + [t];
        assert (sel + [t])[..|sel|] == sel;
        assert (sel + [t])[|sel|] == t;
      } else {
        assert ColorTokens(toks) == sel;
        assert ParseTokens(toks).color == ParseTokens(pre).color;
      }
    }
  }

  /** `shortColor`. */
  function ShortColor(long: string): (r: string)
    ensures r != "m"
    ensures r == "" <==> long !in {"White", "Blue", "Black", "Red", "Green"}
  {
    if long == "White" then "w"
    else if long == "Blue" then "u"
    else if long == "Black" then "b"
    else if long == "Red" then "r"
    else if long == "Green" then "g"
    else ""
  }

  /** The colour name whose short form is `x`. */
  function LongColor(x: char): string
    requires x in "wubrg"
  {
    if x == 'w' then "White"
    else if x == 'u' then "Blue"
    else if x == 'b' then "Black"
    else if x == 'r' then "Red"
    else "Green"
  }

  /** `shortColor` and `LongColor` are inverse on the five colours. */
  lemma ShortColorInverse(long: string, x: char)
    requires x in "wubrg"
    ensures ShortColor(long) == [x] <==> long == LongColor(x)
  {
  }

  /** Some colour of the card has short form `x`. */
  predicate HasShort(colors: seq<string>, x: string) {
    exists i | 0 <= i < |colors| :: ShortColor(colors[i]) == x
  }

  /** Whether the card passes the single colour predicate `qc`. */
  predicate ColorHolds(c: Card, qc: string) {
    if |qc| == 0 then true
    else
      var negated := qc[0] == '!';
      var letter := if negated then qc[1..] else qc;
      if letter == "m" && |c.colors| > 1 then !negated
      else if HasShort(c.colors, letter) then !negated
      else negated
  }

  /** Every token of a group occurs in the lowercased field. */
  predicate ContainsAll(field: string, toks: seq<string>) {
    forall i | 0 <= i < |toks| :: Contains(Lower(field), toks[i])
  }

  /** The meaning of `Match`: each group is the conjunction of its predicates. */
  predicate Satisfies(q: Query, c: Card) {
    && ContainsAll(c.name, q.name)
    && ContainsAll(c.text, q.rule)
    && ContainsAll(c.typeLine, q.typeLine)
    && (forall i | 0 <= i < |q.color| :: ColorHolds(c, q.color[i]))
  }

  /** `Query.Match`, with its early returns. */
  method Match(q: Query, c: Card) returns (ok: bool)
    ensures ok <==> Satisfies(q, c)
  {
    var name := Lower(c.name);
    for i := 0 to |q.name|
      invariant forall j | 0 <= j < i :: Contains(name, q.name[j])
    {
      if !Contains(name, q.name[i]) {
        return false;
      }
    }
    var text := Lower(c.text);
    for i := 0 to |q.rule|
      invariant forall j | 0 <= j < i :: Contains(text, q.rule[j])
    {
      if !Contains(text, q.rule[i]) {
        return false;
      }
    }
    var typeLine := Lower(c.typeLine);
    for i := 0 to |q.typeLine|
      invariant forall j | 0 <= j < i :: Contains(typeLine, q.typeLine[j])
    {
      if !Contains(typeLine, q.typeLine[i]) {
        return false;
      }
    }
    for i := 0 to |q.color|
      invariant forall j | 0 <= j < i :: ColorHolds(c, q.color[j])
    {
      var qc := q.color[i];
      if |qc| == 0 {
        continue;
      }
      var negated := false;
      if qc[0] == '!' {
        negated := true;
        qc := qc[1..];
      }
      if qc == "m" && |c.colors| > 1 {
        if negated {
          return false;
        }
        continue;
      }
      var found := false;
      var k := 0;
      while k < |c.colors| && !found
        invariant 0 <= k <= |c.colors|
        invariant found <==> exists j | 0 <= j < k :: ShortColor(c.colors[j]) == qc
      {
        if ShortColor(c.colors[k]) == qc {
          found := true;
        }
        k := k + 1;
      }
      assert found <==> HasShort(c.colors, qc);
      if found {
        if negated {
          return false;
        }
        continue;
      }
      if !negated {
        return false;
      }
    }
    return true;
  }

  /** A single colour letter other than `m` asks for that colour; negated,
      it excludes that colour and nothing else. */
  lemma ColorLetterSemantics(c: Card, x: char)
    requires x in "wubrg"
    ensures ColorHolds(c, [x]) <==> LongColor(x) in c.colors
    ensures ColorHolds(c, "!" + [x]) <==> LongColor(x) !in c.colors
  {
    forall i | 0 <= i < |c.colors|
      ensures ShortColor(c.colors[i]) == [x] <==> c.colors[i] == LongColor(x)
    {
      ShortColorInverse(c.colors[i], x);
    }
    assert ("!" + [x])[1..] == [x];
  }

  /** `m` asks for more than one colour and `!m` for at most one: the
      fall-through into the colour loop never matches, as no colour's short
      form is "m". */
  lemma MulticolorSemantics(c: Card)
    ensures ColorHolds(c, "m") <==> |c.colors| > 1
    ensures ColorHolds(c, "!m") <==> |c.colors| <= 1
  {
    assert !HasShort(c.colors, "m");
    assert "!m"[1..] == "m";
  }

  /** Predicates coming from one `c:` token are independent requirements:
      the card must have every colour listed. */
  lemma ColorTokenRequiresAll(c: Card, letters: string)
    requires forall j | 0 <= j < |letters| :: letters[j] in "wubrg"
    ensures (forall i | 0 <= i < |ColorEntries(letters, false)| :: ColorHolds(c, ColorEntries(letters, false)[i]))
        <==> forall j | 0 <= j < |letters| :: LongColor(letters[j]) in c.colors
  {
    ColorEntriesSpec(letters, false);
    ValidLettersOfValid(letters);
    forall j | 0 <= j < |letters|
      ensures ColorHolds(c, [letters[j]]) <==> LongColor(letters[j]) in c.colors
    {
      ColorLetterSemantics(c, letters[j]);
    }
    assert forall i | 0 <= i < |ColorEntries(letters, false)| :: ColorEntries(letters, false)[i] == [letters[i]];
  }

  lemma {:induction false} ValidLettersOfValid(s: string)
    requires forall j | 0 <= j < |s| :: ValidColor(s[j])
    ensures ValidLetters(s) == s
    decreases |s|
  {
    if |s| > 0 {
      ValidLettersOfValid(s[1..]);
      assert s == [s[0]] + s[1..];
    }
  }

  /** A blank query parses to four empty groups and matches every card. */
  lemma BlankQueryMatchesAll(s: string, c: Card)
    requires IsBlank(s)
    ensures ParseQuery(s) == EmptyQuery
    ensures Satisfies(ParseQuery(s), c)
  {
    FieldsEmptyIffBlank(s);
  }

  /** A query made of one token is parsed as that token alone. */
  lemma ParseSingleToken(t: string)
    requires IsToken(t)
    ensures ParseQuery(t) == AddToken(EmptyQuery, t)
  {
    assert Join([t], " ") == t;
    FieldsOfJoin([t]);
    assert Fields(t) == [t];
    assert [t][..0] == [];
    assert ParseTokens([t]) == AddToken(ParseTokens([]), t);
  }

  /** A query made of two tokens is parsed as the first, then the second. */
  lemma ParseTwoTokens(t1: string, t2: string)
    requires IsToken(t1) && IsToken(t2)
    ensures ParseQuery(t1 + " " + t2) == AddToken(AddToken(EmptyQuery, t1), t2)
  {
    assert Join([t1, t2], " ") == t1 + " " + t2 by {
      assert Join([t2], " ") == t2;
    }
    FieldsOfJoin([t1, t2]);
    assert Fields(t1 + " " + t2) == [t1, t2];
    assert [t1, t2][..1] == [t1];
    assert [t1][..0] == [];
    assert ParseTokens([t1]) == AddToken(ParseTokens([]), t1);
    assert ParseTokens([t1, t2]) == AddToken(ParseTokens([t1]), t2);
  }

  /** The prefixes are tested before lowercasing, so a token such as
      `T:instant` is a name token: it asks for the lowercased token in the
      card's name and says nothing about the type line. */
  lemma UpperCasePrefixIsName(rest: string, c: Card)
    requires IsToken("T:" + rest)
    ensures ParseQuery("T:" + rest) == Query([Lower("T:" + rest)], [], [], [])
    ensures Lower("T:" + rest) == "t:" + Lower(rest)
    ensures Satisfies(ParseQuery("T:" + rest), c) <==> Contains(Lower(c.name), "t:" + Lower(rest))
  {
    var t := "T:" + rest;
    ParseSingleToken(t);
    assert t[0] == 'T';
    assert Classify(t) == NameGroup;
    assert Lower(t) == "t:" + Lower(rest) by {
      assert forall j | 2 <= j < |t| :: t[j] == rest[j - 2];
    }
    assert ContainsAll(c.name, [Lower(t)]) <==> Contains(Lower(c.name), Lower(t)) by {
      assert [Lower(t)][0] == Lower(t);
    }
  }

  /** Lowercase colour letters are tokens that `Lower` leaves alone. */
  lemma ColorLettersAreLower(letters: string)
    requires forall j | 0 <= j < |letters| :: letters[j] in "wubrg"
    ensures Lower(letters) == letters
    ensures forall j | 0 <= j < |letters| :: !IsSpace(letters[j]) && ValidColor(letters[j])
  {
  }

  /** A token made of a prefix and a remainder, neither holding white space. */
  lemma PrefixedToken(p: string, rest: string)
    requires |p| > 0 && forall j | 0 <= j < |p| :: !IsSpace(p[j])
    requires forall j | 0 <= j < |rest| :: !IsSpace(rest[j])
    ensures IsToken(p + rest)
    ensures (p + rest)[..|p|] == p && (p + rest)[|p|..] == rest
  {
    assert forall j | |p| <= j < |p + rest| :: (p + rest)[j] == rest[j - |p|];
  }

  /** A token that starts with `c:` is a colour token whose suffix is the rest. */
  lemma ColorPrefixClassified(rest: string)
    ensures Classify("c:" + rest) == ColorGroup
    ensures ("c:" + rest)[2..] == rest
  {
    var t := "c:" + rest;
    assert t[0] == 'c' && t[1] == ':';
    assert t[..2] == "c:";
    assert t[2..] == rest;
  }

  lemma ColorTokenIsToken(letters: string)
    requires |letters| > 0 && forall j | 0 <= j < |letters| :: letters[j] in "wubrg"
    ensures IsToken("c:" + letters)
  {
    ColorLettersAreLower(letters);
    PrefixedToken("c:", letters);
  }

  lemma AddColorToken(letters: string)
    requires forall j | 0 <= j < |letters| :: letters[j] in "wubrg"
    ensures AddToken(EmptyQuery, "c:" + letters) == Query([], [], [], ColorEntries(letters, false))
  {
    ColorLettersAreLower(letters);
    AddColorSuffix(EmptyQuery, letters);
  }

  lemma AddColorSuffix(q: Query, letters: string)
    requires Lower(letters) == letters
    ensures AddToken(q, "c:" + letters) == q.(color := q.color + ColorEntries(letters, false))
  {
    ColorPrefixClassified(letters);
  }

  lemma AddTypeToken(q: Query, text: string)
    requires IsToken(text)
    ensures IsToken("t:" + text)
    ensures AddToken(q, "t:" + text) == q.(typeLine := q.typeLine + [Lower(text)])
  {
    PrefixedToken("t:", text);
    assert ("t:" + text)[0] == 't';
    assert Classify("t:" + text) == TypeGroup;
  }

  /** The query `c:<letters> t:<text>` parses to one type predicate and one
      colour predicate per letter. */
  lemma ParseColorType(letters: string, text: string)
    requires |letters| > 0 && forall j | 0 <= j < |letters| :: letters[j] in "wubrg"
    requires IsToken(text)
    ensures ParseQuery(("c:" + letters) + " " + ("t:" + text)) == Query([], [], [Lower(text)], ColorEntries(letters, false))
  {
    ColorTokenIsToken(letters);
    AddColorToken(letters);
    AddTypeToken(Query([], [], [], ColorEntries(letters, false)), text);
    ParseTwoTokens("c:" + letters, "t:" + text);
  }

  /** `c:<letters> t:<text>` asks for a card that has EVERY listed colour
      (so `c:wu t:instant` asks for a white and blue instant) and whose type
      line contains the lowercased text. */
  lemma ColorTypeQuery(letters: string, text: string, c: Card)
    requires |letters| > 0 && forall j | 0 <= j < |letters| :: letters[j] in "wubrg"
    requires IsToken(text)
    ensures Satisfies(ParseQuery(("c:" + letters) + " " + ("t:" + text)), c)
        <==> ((forall j | 0 <= j < |letters| :: LongColor(letters[j]) in c.colors)
              && Contains(Lower(c.typeLine), Lower(text)))
  {
    ParseColorType(letters, text);
    ColorTokenRequiresAll(c, letters);
    var q := Query([], [], [Lower(text)], ColorEntries(letters, false));
    assert ContainsAll(c.typeLine, q.typeLine) <==> Contains(Lower(c.typeLine), Lower(text)) by {
      assert q.typeLine[0] == Lower(text);
    }
  }

  /** `c!<x>` for a single colour letter `x` excludes exactly the cards of
      that colour; colourless cards always pass. */
  lemma NegatedColorQuery(x: char, c: Card)
    requires x in "wubrg"
    ensures ParseQuery("c!" + [x]) == Query([], [], [], ["!" + [x]])
    ensures Satisfies(ParseQuery("c!" + [x]), c) <==> LongColor(x) !in c.colors
  {
    var t := "c!" + [x];
    assert IsToken(t);
    ParseSingleToken(t);
    assert t[0] == 'c' && t[1] == '!' && t[2..] == [x];
    assert Classify(t) == NotColorGroup;
    assert Lower([x]) == [x];
    assert ColorEntries([x], true) == ["!" + [x]] by {
      assert [x][1..] == "";
    }
    ColorLetterSemantics(c, x);
    var q := Query([], [], [], ["!" + [x]]);
    assert Satisfies(q, c) <==> ColorHolds(c, "!" + [x]) by {
      assert q.color[0] == "!" + [x];
    }
  }

  /** A query of one plain word asks for that word, lowercased, in the
      card's name. */
  lemma SingleNameToken(t: string, c: Card)
    requires IsToken(t) && Classify(t) == NameGroup
    ensures ParseQuery(t) == Query([Lower(t)], [], [], [])
    ensures Satisfies(ParseQuery(t), c) <==> Contains(Lower(c.name), Lower(t))
  {
    ParseSingleToken(t);
    var q := Query([Lower(t)], [], [], []);
    assert ContainsAll(c.name, q.name) <==> Contains(Lower(c.name), Lower(t)) by {
      assert q.name[0] == Lower(t);
    }
  }

  lemma ShockIsNameToken()
    ensures IsToken("shock") && Classify("shock") == NameGroup
    ensures Lower("shock") == "shock" && Lower("Shock") == "shock"
  {
    assert "shock"[0] == 's';
  }

  /** The query "shock" finds a card named "Shock". */
  lemma ShockMatches(c: Card)
    requires c.name == "Shock"
    ensures ParseQuery("shock") == Query(["shock"], [], [], [])
    ensures Satisfies(ParseQuery("shock"), c)
  {
    ShockIsNameToken();
    SingleNameToken("shock", c);
    assert OccursAt("shock", "shock", 0);
  }

  /** The scan of `Cards.Query` over the keys in `order`, skipping cards
      whose name is in `seen`. */
  function QueryScan(q: Query, m: map<string, Card>, order: seq<string>, seen: set<string>): (r: seq<Card>)
    ensures forall i | 0 <= i < |r| :: r[i] in m.Values && Satisfies(q, r[i]) && r[i].name !in seen
    ensures forall i, j | 0 <= i < j < |r| :: r[i].name != r[j].name
    decreases |order|
  {
    if |order| == 0 then []
    else
      var k := order[0];
      if k in m && Satisfies(q, m[k]) && m[k].name !in seen then
        [m[k]] + QueryScan(q, m, order[1..], seen + {m[k].name})
      else
        QueryScan(q, m, order[1..], seen)
  }

  /** Every matching card reached by the scan has its name in the result
      or in `seen`. */
  lemma {:induction false} QueryScanComplete(q: Query, m: map<string, Card>, order: seq<string>, seen: set<string>, i: nat)
    requires i < |order| && order[i] in m && Satisfies(q, m[order[i]]) && m[order[i]].name !in seen
    ensures exists j | 0 <= j < |QueryScan(q, m, order, seen)| :: QueryScan(q, m, order, seen)[j].name == m[order[i]].name
    decreases |order|
  {
    var k := order[0];
    var r := QueryScan(q, m, order, seen);
    if k in m && Satisfies(q, m[k]) && m[k].name !in seen {
      if i == 0 || m[order[i]].name == m[k].name {
        assert r[0].name == m[order[i]].name;
      } else {
        QueryScanComplete(q, m, order[1..], seen + {m[k].name}, i - 1);
        var j :| 0 <= j < |QueryScan(q, m, order[1..], seen + {m[k].name})|
          && QueryScan(q, m, order[1..], seen + {m[k].name})[j].name == m[order[i]].name;
        assert r[j + 1].name == m[order[i]].name;
      }
    } else {
      QueryScanComplete(q, m, order[1..], seen, i - 1);
    }
  }

  /** `Cards.Query`, the catalog ranged over in `order`. The error is always nil. */
  function QueryCards(cat: Catalog, text: string, order: seq<string>): (r: Result<seq<Card>, string>)
    ensures r.Success?
  {
    Success(QueryScan(ParseQuery(text), cat.m, order, {}))
  }

  /** The result holds matching cards of the catalog, no two with the same
      name, and a card of every matching name. */
  lemma QueryCardsSpec(cat: Catalog, text: string, order: seq<string>)
    requires Enumerates(order, cat.m.Keys)
    ensures var r := QueryCards(cat, text, order).value;
      && (forall i | 0 <= i < |r| :: r[i] in cat.m.Values && Satisfies(ParseQuery(text), r[i]))
      && (forall i, j | 0 <= i < j < |r| :: r[i].name != r[j].name)
      && (forall k | k in cat.m && Satisfies(ParseQuery(text), cat.m[k]) ::
            exists j | 0 <= j < |r| :: r[j].name == cat.m[k].name)
  {
    var r := QueryCards(cat, text, order).value;
    forall k | k in cat.m && Satisfies(ParseQuery(text), cat.m[k])
      ensures exists j | 0 <= j < |r| :: r[j].name == cat.m[k].name
    {
      var i :| 0 <= i < |order| && order[i] == k;
      QueryScanComplete(ParseQuery(text), cat.m, order, {}, i);
    }
  }
}
