/** The card catalog of package `cards`: the `Card` record, the `Cards`
    snapshot with its normalized-name index, and the pure helpers that build
    and read that index. */
module Cards {
  import opened Wrappers
  import opened Strings

  /** The fields of a card that the query language and the name index read. */
  datatype Card = Card(
    name: string,
    names: seq<string>,
    colors: seq<string>,
    typeLine: string,
    text: string
  )

  /** `Cards`: the catalog keyed by card name (`M`) and the index keyed by
      normalized name that is derived from it. */
  datatype Catalog = Catalog(m: map<string, Card>, normalized: map<string, Card>)

  /** `order` is one run of Go's `range` over a map with key set `keys`:
      every key exactly once, in an order nobody may rely on. */
  predicate Enumerates(order: seq<string>, keys: set<string>) {
    && (forall i | 0 <= i < |order| :: order[i] in keys)
    && (forall k | k in keys :: k in order)
    && (forall i, j | 0 <= i < j < |order| :: order[i] != order[j])
  }

  /** `normalizeCardName`: the ligature "Æ" becomes "Ae" and the right single
      quotation mark becomes an apostrophe. */
  function NormalizeCardName(s: string): (r: string)
    ensures 'Æ' !in r && '’' !in r
  {
    var s1 := ReplaceAll(s, "Æ", "Ae");
    ReplaceCharRemoves(s, 'Æ', "Ae");
    ReplaceKeepsAbsent(s1, "’", "'", 'Æ');
    ReplaceCharRemoves(s1, '’', "'");
    ReplaceAll(s1, "’", "'")
  }

  /** A name without either special character is already normalized. */
  lemma NormalizePlainName(s: string)
    requires 'Æ' !in s && '’' !in s
    ensures NormalizeCardName(s) == s
  {
    ReplaceAbsentIdentity(s, 'Æ', "Ae");
    ReplaceAbsentIdentity(s, '’', "'");
  }

  /** Normalizing twice is normalizing once. */
  lemma NormalizeIdempotent(s: string)
    ensures NormalizeCardName(NormalizeCardName(s)) == NormalizeCardName(s)
  {
    NormalizePlainName(NormalizeCardName(s));
  }

  /** Normalization works character by character: it maps a concatenation to
      the concatenation of the normalized pieces. */
  lemma NormalizeAppend(a: string, b: string)
    ensures NormalizeCardName(a + b) == NormalizeCardName(a) + NormalizeCardName(b)
  {
    ReplaceCharAppend(a, b, 'Æ', "Ae");
    ReplaceCharAppend(ReplaceAll(a, "Æ", "Ae"), ReplaceAll(b, "Æ", "Ae"), '’', "'");
  }

  /** "Æ" becomes "Ae", "’" becomes "'", and every other character is kept. */
  lemma NormalizeChar(x: char)
    ensures NormalizeCardName([x]) == if x == 'Æ' then "Ae" else if x == '’' then "'" else [x]
  {
    ReplaceCharSingle(x, 'Æ', "Ae");
    if x == 'Æ' {
      ReplaceAbsentIdentity("Ae", '’', "'");
    } else {
      ReplaceCharSingle(x, '’', "'");
    }
  }

  /** Normalizing a three-piece name normalizes each piece. */
  lemma NormalizeAround(a: string, m: string, b: string)
    ensures NormalizeCardName(a + m + b)
         == NormalizeCardName(a) + NormalizeCardName(m) + NormalizeCardName(b)
  {
    NormalizeAppend(a + m, b);
    NormalizeAppend(a, m);
  }

  /** A name typed with "Ae" or "'" gets the same key as the name spelled
      with "Æ" or "’". */
  lemma NameKeySpellings(a: string, b: string)
    ensures NameKey(a + "Æ" + b) == NameKey(a + "Ae" + b)
    ensures NameKey(a + "’" + b) == NameKey(a + "'" + b)
  {
    NormalizeAround(a, "Æ", b);
    NormalizeAround(a, "Ae", b);
    NormalizeAround(a, "’", b);
    NormalizeAround(a, "'", b);
    NormalizeChar('Æ');
    NormalizeChar('’');
    NormalizeChar('\'');
    NormalizeAppend("A", "e");
    NormalizeChar('A');
    NormalizeChar('e');
    assert "Ae" == "A" + "e";
  }

  /** The index key under which a name is looked up. */
  function NameKey(name: string): string {
    Lower(NormalizeCardName(name))
  }

  /** Every key `generateNormalized` files a card under: its normalized name
      and, for a card with component names, those names joined by " & ",
      " / " and " // ". */
  function NormalizedKeys(c: Card): set<string> {
    {NameKey(c.name)}
    + if |c.names| != 0 then
        {Lower(Join(c.names, " & ")), Lower(Join(c.names, " / ")), Lower(Join(c.names, " // "))}
      else {}
  }

  /** One iteration of `generateNormalized`'s loop: the card overwrites
      whatever the index held under each of its keys. */
  function IndexCard(idx: map<string, Card>, c: Card): (r: map<string, Card>)
    ensures r.Keys == idx.Keys + NormalizedKeys(c)
    ensures forall key | key in NormalizedKeys(c) :: r[key] == c
    ensures forall key | key in idx && key !in NormalizedKeys(c) :: r[key] == idx[key]
  {
    var withNames :=
      if |c.names| != 0 then
        idx[Lower(Join(c.names, " & ")) := c][Lower(Join(c.names, " / ")) := c][Lower(Join(c.names, " // ")) := c]
      else idx;
    withNames[NameKey(c.name) := c]
  }

  /** One iteration of `generateNormalized`'s loop for catalog key `k`. */
  function IndexKey(idx: map<string, Card>, m: map<string, Card>, k: string): (r: map<string, Card>)
    ensures forall key :: key in r <==> key in idx || (k in m && key in NormalizedKeys(m[k]))
    ensures forall key | key in r ::
      r[key] == if k in m && key in NormalizedKeys(m[k]) then m[k] else idx[key]
  {
    if k in m then IndexCard(idx, m[k]) else idx
  }

  /** `generateNormalized`, ranging over the catalog's keys in `order`;
      a later card overwrites an earlier one under a shared key. */
  function GenerateNormalized(m: map<string, Card>, order: seq<string>): map<string, Card> {
    if |order| == 0 then map[]
    else IndexKey(GenerateNormalized(m, order[..|order| - 1]), m, order[|order| - 1])
  }

  /** Some card reached by `order` files itself under `key`. */
  ghost predicate Claimed(m: map<string, Card>, order: seq<string>, key: string) {
    exists i | 0 <= i < |order| :: order[i] in m && key in NormalizedKeys(m[order[i]])
  }

  /** `c` is a card reached by `order` that files itself under `key`. */
  ghost predicate ClaimedBy(m: map<string, Card>, order: seq<string>, key: string, c: Card) {
    exists i | 0 <= i < |order| :: order[i] in m && m[order[i]] == c && key in NormalizedKeys(c)
  }

  /** The index holds `key` exactly when some card claims it, and then
      leads to a card of the catalog that claims it. */
  lemma {:induction false} GenerateNormalizedAt(m: map<string, Card>, order: seq<string>, key: string)
    ensures key in GenerateNormalized(m, order) <==> Claimed(m, order, key)
    ensures key in GenerateNormalized(m, order) ==> ClaimedBy(m, order, key, GenerateNormalized(m, order)[key])
    decreases |order|
  {
    if |order| > 0 {
      var n := |order| - 1;
      var pre := order[..n];
      GenerateNormalizedAt(m, pre, key);
      var prev := GenerateNormalized(m, pre);
      var idx := GenerateNormalized(m, order);
      var k := order[n];
      assert idx == IndexKey(prev, m, k);
      if k in m && key in NormalizedKeys(m[k]) {
        assert order[n] in m && m[order[n]] == idx[key];
      } else {
        assert key in idx <==> key in prev;
        if key in prev {
          assert idx[key] == prev[key];
          var i :| 0 <= i < n && pre[i] in m && m[pre[i]] == prev[key] && key in NormalizedKeys(prev[key]);
          assert order[i] == pre[i];
        }
        if Claimed(m, order, key) {
          var i :| 0 <= i < |order| && order[i] in m && key in NormalizedKeys(m[order[i]]);
          assert pre[i] == order[i];
        }
      }
    }
  }

  /** The index holds exactly the keys some card claims, and each key leads
      to a card of the catalog that claims it. Which claimant wins a
      collision depends on `order` and is deliberately left open. */
  lemma GenerateNormalizedSpec(m: map<string, Card>, order: seq<string>)
    ensures forall key :: key in GenerateNormalized(m, order) <==> Claimed(m, order, key)
    ensures forall key | key in GenerateNormalized(m, order) ::
      ClaimedBy(m, order, key, GenerateNormalized(m, order)[key])
  {
    forall key
      ensures key in GenerateNormalized(m, order) <==> Claimed(m, order, key)
      ensures key in GenerateNormalized(m, order) ==> ClaimedBy(m, order, key, GenerateNormalized(m, order)[key])
    {
      GenerateNormalizedAt(m, order, key);
    }
  }

  /** The catalog `maybeUpdate` publishes for a decoded map. */
  function NewCatalog(m: map<string, Card>, order: seq<string>): Catalog {
    Catalog(m, GenerateNormalized(m, order))
  }

  /** `Cards.LookupNormalized`; `None` stands for the nil card. */
  function LookupNormalized(cat: Catalog, cardName: string): Option<Card> {
    var key := NameKey(cardName);
    if key in cat.normalized then Some(cat.normalized[key]) else None
  }

  /** A user who types "Ae" for "Æ", or "'" for "’", finds the same card. */
  lemma LookupSpellings(cat: Catalog, a: string, b: string)
    ensures LookupNormalized(cat, a + "Ae" + b) == LookupNormalized(cat, a + "Æ" + b)
    ensures LookupNormalized(cat, a + "'" + b) == LookupNormalized(cat, a + "’" + b)
  {
    NameKeySpellings(a, b);
  }

  /** No card of `m` other than `c` claims `key`. */
  predicate SoleClaim(m: map<string, Card>, key: string, c: Card) {
    forall k | k in m && key in NormalizedKeys(m[k]) :: m[k] == c
  }

  /** Looking a name up in a freshly built catalog finds a card of the
      catalog under that key, and finds nothing exactly when no card claims
      the key. */
  lemma LookupInCatalog(m: map<string, Card>, order: seq<string>, cardName: string)
    requires Enumerates(order, m.Keys)
    ensures LookupNormalized(NewCatalog(m, order), cardName).None?
        <==> forall k | k in m :: NameKey(cardName) !in NormalizedKeys(m[k])
    ensures LookupNormalized(NewCatalog(m, order), cardName).Some? ==>
      var c := LookupNormalized(NewCatalog(m, order), cardName).value;
      c in m.Values && NameKey(cardName) in NormalizedKeys(c)
  {
    var idx := GenerateNormalized(m, order);
    var key := NameKey(cardName);
    GenerateNormalizedSpec(m, order);
    if key in idx {
      assert ClaimedBy(m, order, key, idx[key]);
    } else {
      forall k | k in m
        ensures key !in NormalizedKeys(m[k])
      {
        var i :| 0 <= i < |order| && order[i] == k;
      }
    }
  }

  /** A card whose key no other card claims is found under that key. */
  lemma LookupSoleClaimant(m: map<string, Card>, order: seq<string>, k: string, cardName: string)
    requires Enumerates(order, m.Keys)
    requires k in m && NameKey(cardName) in NormalizedKeys(m[k])
    requires SoleClaim(m, NameKey(cardName), m[k])
    ensures LookupNormalized(NewCatalog(m, order), cardName) == Some(m[k])
  {
    var i :| 0 <= i < |order| && order[i] == k;
    GenerateNormalizedSpec(m, order);
    assert Claimed(m, order, NameKey(cardName));
    LookupInCatalog(m, order, cardName);
  }

  /** A card is found under its own name unless another card claims the key. */
  lemma LookupOwnName(m: map<string, Card>, order: seq<string>, k: string)
    requires Enumerates(order, m.Keys) && k in m
    requires SoleClaim(m, NameKey(m[k].name), m[k])
    ensures LookupNormalized(NewCatalog(m, order), m[k].name) == Some(m[k])
  {
    LookupSoleClaimant(m, order, k, m[k].name);
  }

  lemma LowerBeckCall()
    ensures Lower("Beck // Call") == "beck // call"
    ensures Lower("Beck & Call") == "beck & call"
    ensures Lower("beck & CALL") == "beck & call"
  {
  }

  lemma BeckCallNameKeys()
    ensures NameKey("Beck // Call") == "beck // call"
    ensures NameKey("beck & CALL") == "beck & call"
  {
    assert NameKey("Beck // Call") == "beck // call" by {
      NormalizePlainName("Beck // Call");
      LowerBeckCall();
    }
    assert NameKey("beck & CALL") == "beck & call" by {
      NormalizePlainName("beck & CALL");
      LowerBeckCall();
    }
  }

  lemma BeckCallJoinKeys()
    ensures Lower(Join(["Beck", "Call"], " // ")) == "beck // call"
    ensures Lower(Join(["Beck", "Call"], " & ")) == "beck & call"
  {
    assert Lower(Join(["Beck", "Call"], " // ")) == "beck // call" by {
      assert Join(["Beck", "Call"], " // ") == "Beck // Call";
      LowerBeckCall();
    }
    assert Lower(Join(["Beck", "Call"], " & ")) == "beck & call" by {
      assert Join(["Beck", "Call"], " & ") == "Beck & Call";
      LowerBeckCall();
    }
  }

  /** The example of `LookupNormalized`'s doc comment: for the split card
      with components "Beck" and "Call", "Beck // Call" and "beck & CALL"
      lead to the same card. */
  lemma LookupBeckCall(m: map<string, Card>, order: seq<string>, k: string)
    requires Enumerates(order, m.Keys) && k in m
    requires m[k].names == ["Beck", "Call"]
    requires SoleClaim(m, "beck // call", m[k]) && SoleClaim(m, "beck & call", m[k])
    ensures LookupNormalized(NewCatalog(m, order), "Beck // Call") == Some(m[k])
    ensures LookupNormalized(NewCatalog(m, order), "beck & CALL") == Some(m[k])
  {
    BeckCallNameKeys();
    BeckCallJoinKeys();
    LookupSoleClaimant(m, order, k, "Beck // Call");
    LookupSoleClaimant(m, order, k, "beck & CALL");
  }

  /** `truncate`: the first `min(|b|, n)` elements of `b`. */
  function Truncate<T>(b: seq<T>, n: nat): (r: seq<T>)
    ensures |r| == if |b| <= n then |b| else n
    ensures r == b[..|r|]
    ensures |b| <= n ==> r == b
  {
    if |b| > n then b[..n] else b
  }
}
