/** The fragment of Go's `strings` and `unicode` packages the card store and
    the deck importer rely on, over `string` = `seq<char>` (one char per rune). */
module Strings {

  /** `unicode.IsSpace`: the Latin-1 spaces plus the Unicode White_Space
      property, which is what `strings.Fields` splits on. */
  predicate IsSpace(c: char) {
    || c == ' ' || c == '\t' || c == '\n' || c == '\U{000B}' || c == '\U{000C}' || c == '\r'
    || c == '\U{0085}' || c == '\U{00A0}' || c == '\U{1680}'
    || ('\U{2000}' <= c <= '\U{200A}')
    || c == '\U{2028}' || c == '\U{2029}' || c == '\U{202F}' || c == '\U{205F}' || c == '\U{3000}'
  }

  /** A field of `strings.Fields`: non-empty and free of white space. */
  predicate IsToken(t: string) {
    |t| > 0 && forall j | 0 <= j < |t| :: !IsSpace(t[j])
  }

  predicate IsBlank(s: string) {
    forall j | 0 <= j < |s| :: IsSpace(s[j])
  }

  /** Case folding, restricted to ASCII letters. */
  function LowerChar(c: char): char {
    if 'A' <= c <= 'Z' then (c as int - 'A' as int + 'a' as int) as char else c
  }

  /** `strings.ToLower`, character by character. */
  function Lower(s: string): string {
    seq(|s|, j requires 0 <= j < |s| => LowerChar(s[j]))
  }

  function HasPrefix(s: string, p: string): bool {
    |p| <= |s| && s[..|p|] == p
  }

  predicate OccursAt(s: string, sub: string, i: int) {
    0 <= i && i + |sub| <= |s| && s[i..i + |sub|] == sub
  }

  /** `strings.Contains`: `sub` occurs at some offset of `s`. */
  predicate Contains(s: string, sub: string) {
    exists i | 0 <= i <= |s| - |sub| :: OccursAt(s, sub, i)
  }

  function Join(parts: seq<string>, sep: string): string {
    if |parts| == 0 then ""
    else if |parts| == 1 then parts[0]
    else parts[0] + sep + Join(parts[1..], sep)
  }

  /** `strings.Replace(s, pat, rep, -1)`: every non-overlapping occurrence of
      `pat`, scanned left to right, is replaced by `rep`. */
  function ReplaceAll(s: string, pat: string, rep: string): string
    requires |pat| > 0
    decreases |s|
  {
    if |s| == 0 then ""
    else if HasPrefix(s, pat) then rep + ReplaceAll(s[|pat|..], pat, rep)
    else [s[0]] + ReplaceAll(s[1..], pat, rep)
  }

  /** Replacing a single character by a text that does not contain it leaves
      no occurrence of that character behind. */
  lemma {:induction false} ReplaceCharRemoves(s: string, c: char, rep: string)
    requires c !in rep
    ensures c !in ReplaceAll(s, [c], rep)
    decreases |s|
  {
    if |s| > 0 {
      ReplaceCharRemoves(s[1..], c, rep);
    }
  }

  /** A character absent from the input and from the replacement stays absent. */
  lemma {:induction false} ReplaceKeepsAbsent(s: string, pat: string, rep: string, d: char)
    requires |pat| > 0 && d !in s && d !in rep
    ensures d !in ReplaceAll(s, pat, rep)
    decreases |s|
  {
    if |s| > 0 {
      if HasPrefix(s, pat) {
        assert forall j | 0 <= j < |s[|pat|..]| :: s[|pat|..][j] == s[|pat| + j];
        ReplaceKeepsAbsent(s[|pat|..], pat, rep, d);
      } else {
        ReplaceKeepsAbsent(s[1..], pat, rep, d);
      }
    }
  }

  /** Replacing a character that does not occur is the identity. */
  lemma {:induction false} ReplaceAbsentIdentity(s: string, c: char, rep: string)
    requires c !in s
    ensures ReplaceAll(s, [c], rep) == s
    decreases |s|
  {
    if |s| > 0 {
      ReplaceAbsentIdentity(s[1..], c, rep);
      assert s == [s[0]] + s[1..];
    }
  }

  /** A single-character pattern never spans two pieces, so replacing it in a
      concatenation replaces it in each piece. */
  lemma {:induction false} ReplaceCharAppend(a: string, b: string, c: char, rep: string)
    ensures ReplaceAll(a + b, [c], rep) == ReplaceAll(a, [c], rep) + ReplaceAll(b, [c], rep)
    decreases |a|
  {
    if |a| == 0 {
      assert a + b == b;
    } else {
      assert (a + b)[0] == a[0];
      assert (a + b)[1..] == a[1..] + b;
      ReplaceCharAppend(a[1..], b, c, rep);
    }
  }

  /** The pattern character on its own becomes the replacement text; any
      other character stays as it is. */
  lemma ReplaceCharSingle(x: char, c: char, rep: string)
    ensures ReplaceAll([x], [c], rep) == if x == c then rep else [x]
  {
    assert [x][1..] == [];
  }

  /** Length of the run of non-space characters that starts `s`. */
  function TokenLength(s: string): (n: nat)
    ensures n <= |s|
    ensures forall j | 0 <= j < n :: !IsSpace(s[j])
    ensures n < |s| ==> IsSpace(s[n])
  {
    if |s| == 0 || IsSpace(s[0]) then 0 else 1 + TokenLength(s[1..])
  }

  /** `strings.Fields`: the maximal runs of non-space characters, in order. */
  function Fields(s: string): seq<string>
    decreases |s|
  {
    if |s| == 0 then []
    else if IsSpace(s[0]) then Fields(s[1..])
    else
      var n := TokenLength(s);
      [s[..n]] + Fields(s[n..])
  }

  /** Every field is a token: non-empty and without white space. */
  lemma {:induction false} FieldsAreTokens(s: string)
    ensures forall i | 0 <= i < |Fields(s)| :: IsToken(Fields(s)[i])
    decreases |s|
  {
    if |s| > 0 {
      if IsSpace(s[0]) {
        FieldsAreTokens(s[1..]);
      } else {
        FieldsAreTokens(s[TokenLength(s)..]);
      }
    }
  }

  /** A string has no fields exactly when it is all white space. */
  lemma {:induction false} FieldsEmptyIffBlank(s: string)
    ensures Fields(s) == [] <==> IsBlank(s)
    decreases |s|
  {
    if |s| > 0 && IsSpace(s[0]) {
      FieldsEmptyIffBlank(s[1..]);
      assert IsBlank(s) <==> IsBlank(s[1..]) by {
        assert forall j | 1 <= j < |s| :: s[j] == s[1..][j - 1];
      }
    }
  }

  lemma {:induction false} TokenLengthAppend(w: string, t: string)
    requires forall j | 0 <= j < |w| :: !IsSpace(w[j])
    ensures TokenLength(w + t) == |w| + TokenLength(t)
    decreases |w|
  {
    if |w| > 0 {
      assert (w + t)[1..] == w[1..] + t;
      TokenLengthAppend(w[1..], t);
    } else {
      assert w + t == t;
    }
  }

  /** Splitting a space-joined list of tokens gives the tokens back. */
  lemma {:induction false} FieldsOfJoin(ws: seq<string>)
    requires forall i | 0 <= i < |ws| :: IsToken(ws[i])
    ensures Fields(Join(ws, " ")) == ws
    decreases |ws|
  {
    if |ws| == 1 {
      var w := ws[0];
      TokenLengthAppend(w, "");
      assert w + "" == w;
      assert w[|w|..] == "";
    } else if |ws| > 1 {
      var w := ws[0];
      var rest := Join(ws[1..], " ");
      var s := w + " " + rest;
      assert s == w + (" " + rest);
      TokenLengthAppend(w, " " + rest);
      assert TokenLength(s) == |w|;
      assert s[..|w|] == w;
      assert s[|w|..] == " " + rest;
      assert Fields(" " + rest) == Fields(rest) by {
        assert (" " + rest)[1..] == rest;
      }
      FieldsOfJoin(ws[1..]);
      assert ws == [w] + ws[1..];
    }
  }
}
