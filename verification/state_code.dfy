/**
 * The state abbreviation of a city label such as "Boston (MA)": the text
 * between the first '(' and the first ')' after it. This is what the
 * lazy pattern `\((.*?)\)` yields as its first match, for labels without
 * line breaks.
 */
module StateCode {
  import opened Wrappers

  /** The first position at or after `from` holding `c`, if any. */
  function Find(s: string, c: char, from: nat): (r: Option<nat>)
    ensures r.Some? ==> from <= r.value < |s| && s[r.value] == c
    ensures r.Some? ==> forall k :: from <= k < r.value ==> s[k] != c
    ensures r.None? ==> forall k :: from <= k < |s| ==> s[k] != c
    decreases |s| - from
  {
    if from >= |s| then None
    else if s[from] == c then Some(from)
    else Find(s, c, from + 1)
  }

  /** Some '(' in `text` has a ')' somewhere after it. */
  predicate HasParenPair(text: string)
  {
    exists i, j :: 0 <= i < j < |text| && text[i] == '(' && text[j] == ')'
  }

  /**
   * `code` is what the pattern's first match captures when it opens at
   * position `i`: `i` holds the first '(' of the label, `code` follows it
   * and is closed by a ')', and `code` itself holds no ')'.
   */
  predicate Captures(text: string, i: int, code: string)
  {
    && 0 <= i && i + |code| + 1 < |text|
    && text[i] == '(' && '(' !in text[..i]
    && text[i + 1..i + 1 + |code|] == code
    && text[i + 1 + |code|] == ')' && ')' !in code
  }

  /**
   * Extracts the state code; None where `re.findall(r'\((.*?)\)', label)[0]`
   * fails on an empty match list.
   */
  function Extract(text: string): (r: Option<string>)
    ensures r.Some? <==> HasParenPair(text)
    ensures r.Some? ==> exists i :: Captures(text, i, r.value)
    ensures r.Some? ==> forall i, code :: Captures(text, i, code) ==> code == r.value
  {
    match Find(text, '(', 0)
    case None => None
    case Some(i) =>
      match Find(text, ')', i + 1)
      case None =>
        assert !HasParenPair(text) by {
          forall a, b | 0 <= a < b < |text| && text[a] == '(' ensures text[b] != ')' {
            assert i <= a;
          }
        }
        None
      case Some(j) =>
        var code := text[i + 1..j];
        assert Captures(text, i, code) by {
          forall k | 0 <= k < |code| ensures code[k] != ')' {
            assert code[k] == text[i + 1 + k];
          }
          assert '(' !in text[..i] by {
            forall k | 0 <= k < i ensures text[..i][k] != '(' { }
          }
        }
        Some(code)
  }

  /** The label format of the data set: "<City> (<State>)". */
  function Label(city: string, code: string): string
  {
    city + " (" + code + ")"
  }

  /**
   * Extraction inverts labelling, for city names without '(' and codes
   * without ')'.
   */
  lemma ExtractLabel(city: string, code: string)
    requires '(' !in city && ')' !in code
    ensures Extract(Label(city, code)) == Some(code)
  {
    var text := Label(city, code);
    var i := |city| + 1;
    assert text[i] == '(';
    forall k | 0 <= k < i ensures text[k] != '(' {
      if k < |city| {
        assert text[k] == city[k];
      }
    }
    assert Find(text, '(', 0) == Some(i);
    assert text[i + 1 + |code|] == ')';
    forall k | i + 1 <= k < i + 1 + |code| ensures text[k] != ')' {
      assert text[k] == code[k - i - 1];
    }
    assert Find(text, ')', i + 1) == Some(i + 1 + |code|);
    assert text[i + 1..i + 1 + |code|] == code;
  }

  /** Two labels of the data set: "Boston (MA)" names MA, "Portland (ME)" names ME. */
  lemma SampleLabels()
    ensures Extract("Boston (MA)") == Some("MA")
    ensures Extract("Portland (ME)") == Some("ME")
  {
    assert Label("Boston", "MA") == "Boston (MA)";
    ExtractLabel("Boston", "MA");
    assert Label("Portland", "ME") == "Portland (ME)";
    ExtractLabel("Portland", "ME");
  }
}
