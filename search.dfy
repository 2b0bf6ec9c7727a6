/**
 * The text canonicaliser and the alias expander of the free-text search:
 * lower-casing, expansion of decimal weights into grams, removal of every
 * character outside `[а-яa-z0-9]`, and the token set built for a query.
 */
module Search {
  import opened Wrappers
  import opened Seqs
  import opened Text

  /** The characters the final cleanup keeps: `[а-яa-z0-9]` (U+0430..U+044F, so `ё` is dropped). */
  predicate IsKept(c: char) { 'а' <= c <= 'я' || 'a' <= c <= 'z' || IsDigit(c) }

  function Pow10(n: nat): (p: nat)
    ensures p >= 1
  {
    if n == 0 then 1 else 10 * Pow10(n - 1)
  }

  /**
   * `(i + f / p) * 1000` rounded towards zero, for `p >= 1`: the value
   * `int(...)` takes of a non-negative product.
   */
  function Thousandths(i: nat, f: nat, p: nat): (g: nat)
    requires p >= 1
    ensures g * p <= (i * p + f) * 1000 < (g + 1) * p
  {
    var g := i * 1000 + f * 1000 / p;
    TruncationBounds(i, f, p, g);
    g
  }

  lemma TruncationBounds(i: nat, f: nat, p: nat, g: int)
    requires p >= 1
    requires g == i * 1000 + f * 1000 / p
    ensures g * p <= (i * p + f) * 1000 < (g + 1) * p
  {
    var a := f * 1000;
    var q, r := a / p, a % p;
    assert a == q * p + r && 0 <= r < p;
    var ip := i * p;
    assert g * p == i * 1000 * p + q * p;
    assert i * 1000 * p == ip * 1000;
    assert (ip + f) * 1000 == ip * 1000 + a;
    assert (g + 1) * p == g * p + p;
  }

  /**
   * `int(float(num) * 1000)` for `num = intPart + "." + fracPart`, in exact
   * arithmetic: the number of whole grams, `num * 1000` truncated. With
   * `m = |fracPart|`, `num * 10^m` is `intPart * 10^m + fracPart`.
   */
  function Grams(intPart: string, fracPart: string): (g: nat)
    requires AllDigits(intPart) && AllDigits(fracPart)
    ensures var p := Pow10(|fracPart|);
            var scaled := (DigitsValue(intPart) * p + DigitsValue(fracPart)) * 1000;
            g * p <= scaled < (g + 1) * p
  {
    Thousandths(DigitsValue(intPart), DigitsValue(fracPart), Pow10(|fracPart|))
  }

  /** One match of `\b\d+\.\d+\b`: the dot and the end of the match. */
  datatype WeightMatch = WeightMatch(dot: nat, end: nat)

  /**
   * `s[i..end]` is digits, a dot at `dot`, digits, and it is bounded by
   * non-word characters (or the ends of `s`) on both sides.
   */
  predicate IsWeightMatch(s: string, i: nat, dot: nat, end: nat)
  {
    i < dot && dot + 1 < end <= |s| && s[dot] == '.'
    && AllDigits(s[i..dot]) && AllDigits(s[dot + 1..end])
    && (i == 0 || !IsWordChar(s[i - 1]))
    && (end == |s| || !IsWordChar(s[end]))
  }

  /**
   * Whether `\b\d+\.\d+\b` matches at position `i`. Backtracking cannot
   * help the regex: a shorter digit run is followed by a digit, which is
   * neither a dot nor a word boundary, so the greedy runs decide the match.
   */
  function WeightMatchAt(s: string, i: nat): (m: Option<WeightMatch>)
    requires i <= |s|
    ensures m.Some? ==> IsWeightMatch(s, i, m.value.dot, m.value.end)
  {
    if i < |s| && IsDigit(s[i]) && (i == 0 || !IsWordChar(s[i - 1])) then
      var dot := DigitRunEnd(s, i);
      if dot + 1 < |s| && s[dot] == '.' && IsDigit(s[dot + 1]) then
        var end := DigitRunEnd(s, dot + 1);
        if end == |s| || !IsWordChar(s[end]) then
          assert AllDigits(s[i..dot]) && AllDigits(s[dot + 1..end]);
          Some(WeightMatch(dot, end))
        else None
      else None
    else None
  }

  /** Every match of the pattern at `i` is the one `WeightMatchAt` finds. */
  lemma WeightMatchAtComplete(s: string, i: nat, dot: nat, end: nat)
    requires IsWeightMatch(s, i, dot, end)
    ensures WeightMatchAt(s, i) == Some(WeightMatch(dot, end))
  {
    forall k | i <= k < dot ensures IsDigit(s[k]) {
      assert s[k] == s[i..dot][k - i];
    }
    forall k | dot + 1 <= k < end ensures IsDigit(s[k]) {
      assert s[k] == s[dot + 1..end][k - dot - 1];
    }
    DigitRunEndAt(s, i, dot);
    DigitRunEndAt(s, dot + 1, end);
  }

  /** A decimal `num` with its dot at `dot`. */
  predicate IsDecimal(num: string, dot: nat)
  {
    0 < dot && dot + 1 < |num| && num[dot] == '.' && AllDigits(num[..dot]) && AllDigits(num[dot + 1..])
  }

  /** The substitution callback: the matched decimal followed by its grams, with no separator. */
  function ExpandWeight(num: string, dot: nat): string
    requires IsDecimal(num, dot)
  {
    num + NatToString(Grams(num[..dot], num[dot + 1..]))
  }

  /** `re.sub(r'\b\d+\.\d+\b', expand_weight, s)` from position `i` on. */
  function ExpandFrom(s: string, i: nat): string
    requires i <= |s|
    decreases |s| - i
  {
    if i == |s| then ""
    else match WeightMatchAt(s, i)
      case Some(m) =>
        assert s[i..m.end][..m.dot - i] == s[i..m.dot];
        assert s[i..m.end][m.dot - i + 1..] == s[m.dot + 1..m.end];
        ExpandWeight(s[i..m.end], m.dot - i) + ExpandFrom(s, m.end)
      case None => [s[i]] + ExpandFrom(s, i + 1)
  }

  /** The whole weight substitution of `normalize_for_search`. */
  function ExpandWeights(s: string): string
  {
    ExpandFrom(s, 0)
  }

  /**
   * `normalize_for_search`: lower-case, expand weights on the lowered text,
   * then drop every character outside `[а-яa-z0-9]`.
   */
  function Normalize(text: string): (r: string)
    ensures forall k :: 0 <= k < |r| ==> IsKept(r[k])
    ensures text == "" ==> r == ""
  {
    if text == "" then "" else Filter(ExpandWeights(Lower(text)), IsKept)
  }

  /** Without a dot there is no weight to expand: the substitution copies the text. */
  lemma {:induction false} ExpandFromWithoutDot(s: string, i: nat)
    requires i <= |s|
    requires forall k :: i <= k < |s| ==> s[k] != '.'
    ensures ExpandFrom(s, i) == s[i..]
    decreases |s| - i
  {
    if i < |s| {
      assert WeightMatchAt(s, i).None?;
      ExpandFromWithoutDot(s, i + 1);
      assert s[i..] == [s[i]] + s[i + 1..];
    }
  }

  /** A text without dots is normalised by lower-casing and filtering alone. */
  lemma NormalizeWithoutDot(text: string)
    requires forall k :: 0 <= k < |text| ==> text[k] != '.'
    ensures Normalize(text) == Filter(Lower(text), IsKept)
  {
    if text != "" {
      ExpandFromWithoutDot(Lower(text), 0);
    }
  }

  /** Normalising twice gives the same as normalising once. */
  lemma NormalizeIdempotent(text: string)
    ensures Normalize(Normalize(text)) == Normalize(text)
  {
    var y := Normalize(text);
    assert Lower(y) == y;
    NormalizeWithoutDot(y);
    FilterKeepsAll(y, IsKept);
  }

  /** An isolated decimal is one match of the weight pattern, replaced by itself and its grams. */
  lemma ExpandIsolatedDecimal(intPart: string, fracPart: string)
    requires intPart != "" && fracPart != ""
    requires AllDigits(intPart) && AllDigits(fracPart)
    ensures ExpandWeights(intPart + "." + fracPart)
            == intPart + "." + fracPart + NatToString(Grams(intPart, fracPart))
  {
    var s := intPart + "." + fracPart;
    assert s[0..|intPart|] == s[..|intPart|] == intPart;
    assert s[|intPart| + 1..|s|] == s[|intPart| + 1..] == fracPart;
    WeightMatchAtComplete(s, 0, |intPart|, |s|);
    assert s[0..|s|] == s;
    assert ExpandWeight(s, |intPart|) == s + NatToString(Grams(intPart, fracPart));
    assert ExpandFrom(s, |s|) == "";
    assert ExpandFrom(s, 0) == ExpandWeight(s[0..|s|], |intPart| - 0) + ExpandFrom(s, |s|);
  }

  /** The final cleanup removes a separator that follows kept characters. */
  lemma FilterDropsSeparator(a: string, c: char)
    requires forall k :: 0 <= k < |a| ==> IsKept(a[k])
    requires !IsKept(c)
    ensures Filter(a + [c], IsKept) == a
  {
    assert (a + [c])[..|a|] == a;
    FilterKeepsAll(a, IsKept);
  }

  /** Removing the separator `c` between kept runs joins them. */
  lemma FilterJoinsAround(a: string, c: char, b: string)
    requires forall k :: 0 <= k < |a| ==> IsKept(a[k])
    requires forall k :: 0 <= k < |b| ==> IsKept(b[k])
    requires !IsKept(c)
    ensures Filter((a + [c]) + b, IsKept) == a + b
  {
    FilterAppend(a + [c], b, IsKept);
    FilterDropsSeparator(a, c);
    FilterKeepsAll(b, IsKept);
  }

  /**
   * An isolated decimal `intPart.fracPart` normalises to its digits followed
   * by its grams (the dot itself is removed by the final cleanup).
   */
  lemma NormalizeDecimal(intPart: string, fracPart: string)
    requires intPart != "" && fracPart != ""
    requires AllDigits(intPart) && AllDigits(fracPart)
    ensures Normalize(intPart + "." + fracPart)
            == intPart + fracPart + NatToString(Grams(intPart, fracPart))
  {
    var s := intPart + "." + fracPart;
    var grams := NatToString(Grams(intPart, fracPart));
    LowerDecimal(intPart, fracPart);
    ExpandIsolatedDecimal(intPart, fracPart);
    DecimalCleanup(intPart, fracPart, grams);
  }

  /** The cleanup removes only the dot of a decimal followed by digits. */
  lemma DecimalCleanup(intPart: string, fracPart: string, grams: string)
    requires AllDigits(intPart) && AllDigits(fracPart) && AllDigits(grams)
    ensures Filter(intPart + "." + fracPart + grams, IsKept) == intPart + fracPart + grams
  {
    var tail := fracPart + grams;
    forall k | 0 <= k < |tail| ensures IsKept(tail[k]) {
      if k < |fracPart| {
        assert tail[k] == fracPart[k];
      } else {
        assert tail[k] == grams[k - |fracPart|];
      }
    }
    assert forall k :: 0 <= k < |intPart| ==> IsKept(intPart[k]);
    assert intPart + "." + fracPart + grams == (intPart + ['.']) + tail;
    FilterJoinsAround(intPart, '.', tail);
    assert intPart + tail == intPart + fracPart + grams;
  }

  /** Lower-casing leaves a decimal unchanged. */
  lemma LowerDecimal(intPart: string, fracPart: string)
    requires AllDigits(intPart) && AllDigits(fracPart)
    ensures Lower(intPart + "." + fracPart) == intPart + "." + fracPart
  {
    var s := intPart + "." + fracPart;
    forall k | 0 <= k < |s| ensures LowerChar(s[k]) == s[k] {
      assert IsDigit(s[k]) || s[k] == '.';
    }
  }

  /** `0.9` weighs 900 grams. */
  lemma GramsExample()
    ensures NatToString(Grams("0", "9")) == "900"
  {
    assert DigitsValue("0") == 0 && DigitsValue("9") == 9 by {
      assert "0"[..0] == "" && "9"[..0] == "";
    }
    assert Pow10(1) == 10;
    assert Grams("0", "9") == 900;
    assert NatToString(9) == "9";
    assert NatToString(90) == "90";
  }

  /** `0.9` is rewritten as `0.9900`. */
  lemma DecimalExpandExample()
    ensures ExpandWeights("0.9") == "0.9900"
  {
    ExpandIsolatedDecimal("0", "9");
    assert "0" + "." + "9" == "0.9";
    GramsExample();
    assert "0.9" + "900" == "0.9900";
  }

  /** Helper for `NormalizeExample`: the cleanup of `0.9900` drops the dot. */
  lemma DecimalFilterExample()
    ensures Filter("0.9900", IsKept) == "09900"
  {
    FilterJoinsAround("0", '.', "9900");
    assert ("0" + ['.']) + "9900" == "0.9900";
    assert "0" + "9900" == "09900";
  }

  /** `0.9` normalises to `09900`: the grams are appended and the dot is dropped. */
  lemma NormalizeExample()
    ensures Normalize("0.9") == "09900"
  {
    assert Lower("0.9") == "0.9";
    DecimalExpandExample();
    DecimalFilterExample();
  }

  /**
   * A decimal followed directly by a word character other than a digit
   * (as in `0.9кг`) is not on a word boundary and is not expanded there.
   */
  lemma GluedDecimalNotExpanded(intPart: string, fracPart: string, c: char, rest: string)
    requires intPart != "" && fracPart != ""
    requires AllDigits(intPart) && AllDigits(fracPart)
    requires IsWordChar(c) && !IsDigit(c)
    ensures WeightMatchAt(intPart + "." + fracPart + [c] + rest, 0).None?
  {
    var s := intPart + "." + fracPart + [c] + rest;
    var dot, end := |intPart|, |intPart| + 1 + |fracPart|;
    assert forall k :: 0 <= k < dot ==> IsDigit(s[k]);
    assert forall k :: dot + 1 <= k < end ==> IsDigit(s[k]);
    DigitRunEndAt(s, 0, dot);
    DigitRunEndAt(s, dot + 1, end);
  }

  /** Helper for `NormalizeGluedExample`: `0.9кг` is already lower case. */
  lemma GluedLowerExample()
    ensures Lower("0.9кг") == "0.9кг"
  {
  }

  /** Helper for `NormalizeGluedExample`: the weight pattern matches nowhere in `0.9кг`. */
  lemma GluedExpandExample()
    ensures ExpandWeights("0.9кг") == "0.9кг"
  {
    var s := "0.9кг";
    assert s == "0" + "." + "9" + ['к'] + "г";
    GluedDecimalNotExpanded("0", "9", 'к', "г");
    assert WeightMatchAt(s, 1).None?;
    ExpandFromWithoutDot(s, 2);
    assert ExpandFrom(s, 1) == [s[1]] + s[2..];
  }

  /** Helper for `NormalizeGluedExample`: the cleanup of `0.9кг` drops the dot. */
  lemma GluedFilterExample()
    ensures Filter("0.9кг", IsKept) == "09кг"
  {
    FilterJoinsAround("0", '.', "9кг");
    assert ("0" + ['.']) + "9кг" == "0.9кг";
    assert "0" + "9кг" == "09кг";
  }

  /**
   * `0.9кг` normalises to `09кг`: it is already lower case, the weight
   * pattern matches nowhere in it, and the cleanup only drops the dot.
   */
  lemma NormalizeGluedExample()
    ensures Normalize("0.9кг") == "09кг"
  {
    GluedLowerExample();
    GluedExpandExample();
    GluedFilterExample();
  }

  /** The alias key: `''.join(re.findall(r'\d+', query))`, every digit of the raw query in order. */
  function AliasKey(query: string): (key: string)
    ensures AllDigits(key)
  {
    Filter(query, IsDigit)
  }

  /** The canonical form of the alias keywords for `query`'s key, if the key is known. */
  function AliasForm(query: string, aliases: map<string, seq<string>>): Option<string>
  {
    var key := AliasKey(query);
    if key in aliases then Some(Normalize(Join(aliases[key]))) else None
  }

  /**
   * `expand_query_with_aliases`: the normalised query (when non-empty) and
   * the normalised, space-joined alias keywords of the query's digit key
   * (when the key is known and the form is non-empty).
   */
  function ExpandQuery(query: string, aliases: map<string, seq<string>>): (tokens: set<string>)
    ensures "" !in tokens
    ensures |tokens| <= 2
    ensures Normalize(query) in tokens <==> Normalize(query) != ""
    ensures forall t :: t in tokens && t != Normalize(query) ==>
              AliasKey(query) in aliases && t == Normalize(Join(aliases[AliasKey(query)]))
    ensures AliasKey(query) in aliases && Normalize(Join(aliases[AliasKey(query)])) != "" ==>
              Normalize(Join(aliases[AliasKey(query)])) in tokens
  {
    var base := Normalize(query);
    var tokens := if base != "" then {base} else {};
    match AliasForm(query, aliases)
    case Some(form) =>
      if form != "" then
        assert |tokens + {form}| <= |tokens| + 1;
        tokens + {form}
      else tokens
    case None => tokens
  }

  /** `tokenize_query`: the normalised query as a single token, or no token when it is empty. */
  function TokenizeQuery(query: string): (r: seq<string>)
    ensures |r| <= 1
    ensures r == [] <==> Normalize(query) == ""
    ensures forall k :: 0 <= k < |r| ==> r[k] == Normalize(query)
  {
    var norm := Normalize(query);
    if norm != "" then [norm] else []
  }

  /** With no aliases, the expander yields exactly the single-token form. */
  lemma TokenizeIsExpandWithoutAliases(query: string)
    ensures (set t | t in TokenizeQuery(query)) == ExpandQuery(query, map[])
  {
  }

  /** A plain digit code is its own canonical form. */
  lemma CodeNormalizeExample()
    ensures Normalize("200") == "200"
  {
    NormalizeWithoutDot("200");
    assert Lower("200") == "200";
    FilterKeepsAll("200", IsKept);
  }

  /** A plain digit code is its own alias key. */
  lemma CodeKeyExample()
    ensures AliasKey("200") == "200"
  {
    FilterKeepsAll("200", IsDigit);
  }

  /** Helper for `KeywordsExample`: the keywords are joined with one space. */
  lemma JoinExample()
    ensures Join(["Мисо", "паста"]) == "Мисо паста"
  {
    assert ["Мисо", "паста"][..1] == ["Мисо"];
  }

  /** Helper for `KeywordsExample`: the cleanup drops the space. */
  lemma CleanupExample()
    ensures Filter("мисо паста", IsKept) == "мисопаста"
  {
    FilterJoinsAround("мисо", ' ', "паста");
    assert ("мисо" + [' ']) + "паста" == "мисо паста";
    assert "мисо" + "паста" == "мисопаста";
  }

  /** Helper for `KeywordsExample`: lowering the joined keywords. */
  lemma LowerExample()
    ensures Lower("Мисо паста") == "мисо паста"
  {
  }

  /**
   * The keywords `Мисо`, `паста` join to `Мисо паста`, which lowers to
   * `мисо паста` and loses its space in the cleanup: `мисопаста`.
   */
  lemma KeywordsExample()
    ensures Normalize(Join(["Мисо", "паста"])) == "мисопаста"
  {
    JoinExample();
    assert forall k :: 0 <= k < |"Мисо паста"| ==> "Мисо паста"[k] != '.';
    NormalizeWithoutDot("Мисо паста");
    LowerExample();
    CleanupExample();
  }

  /** A digit code with a known alias yields both the code and its keywords. */
  lemma ExpandQueryExample()
    ensures ExpandQuery("200", map["200" := ["Мисо", "паста"]]) == {"200", "мисопаста"}
  {
    CodeNormalizeExample();
    CodeKeyExample();
    KeywordsExample();
  }
}
