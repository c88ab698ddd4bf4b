/**
 * The issuer-code filter of `collect_issuers`: the `value` attributes of the
 * options of the `Code` dropdown become the list of issuer codes. Fetching
 * and parsing the page are outside the model; the option values arrive as
 * input, `None` standing for an option without a `value` attribute.
 */
module Issuers {
  import Text
  import Selection

  datatype Option<T> = None | Some(value: T)

  /**
   * The comprehension's condition, evaluated on the raw attribute: present,
   * non-empty (Python truthiness) and without a digit.
   */
  predicate Keep(option: Option<string>) {
    option.Some? && |option.value| > 0 && !Text.HasDigit(option.value)
  }

  /** The issuer codes listed by the dropdown, in dropdown order. */
  function CollectIssuers(options: seq<Option<string>>): (codes: seq<string>)
    ensures |codes| <= |options|
    ensures forall c :: c in codes ==> !Text.HasDigit(c)
  {
    if |options| == 0 then []
    else
      var last := options[|options| - 1];
      var rest := CollectIssuers(options[..|options| - 1]);
      if Keep(last) then
        Text.StripHasDigit(last.value);
        rest + [Text.Strip(last.value)]
      else rest
  }

  /** Code k is the stripped value of the k-th kept option. */
  lemma {:induction false} CodesByPosition(options: seq<Option<string>>)
    ensures var codes := CollectIssuers(options);
      var kept := Selection.Positions(options, Keep);
      && |codes| == |kept|
      && forall k :: 0 <= k < |codes| ==> codes[k] == Text.Strip(options[kept[k]].value)
  {
    if |options| > 0 {
      var n := |options|;
      var init := options[..n - 1];
      var last := options[n - 1];
      CodesByPosition(init);
      var codes0, kept0 := CollectIssuers(init), Selection.Positions(init, Keep);
      var codes, kept := CollectIssuers(options), Selection.Positions(options, Keep);
      var tail := if Keep(last) then [n - 1] else [];
      assert kept == kept0 + tail;
      assert codes == codes0 + (if Keep(last) then [Text.Strip(last.value)] else []);
      forall k | 0 <= k < |codes|
        ensures codes[k] == Text.Strip(options[kept[k]].value)
      {
        if k < |codes0| {
          assert codes[k] == codes0[k] && kept[k] == kept0[k];
          assert options[kept0[k]] == init[kept0[k]];
        } else {
          assert kept[k] == n - 1;
        }
      }
    }
  }

  /**
   * Element-by-element description: `kept` lists, in dropdown order, exactly
   * the options whose raw value is present, non-empty and digit-free, and
   * the k-th code is the stripped value of the k-th of them.
   */
  lemma {:induction false} CollectIssuersSpec(options: seq<Option<string>>)
    ensures var codes := CollectIssuers(options);
      var kept := Selection.Positions(options, Keep);
      && Selection.IncreasingIndices(kept, |options|)
      && (forall k :: 0 <= k < |kept| ==>
            && options[kept[k]].Some?
            && options[kept[k]].value != ""
            && !Text.HasDigit(options[kept[k]].value))
      && (forall i :: 0 <= i < |options| ==>
            (options[i].Some? && options[i].value != "" && !Text.HasDigit(options[i].value))
            ==> i in kept)
      && |codes| == |kept|
      && forall k :: 0 <= k < |codes| ==> codes[k] == Text.Strip(options[kept[k]].value)
  {
    CodesByPosition(options);
  }

  /** Appending options appends their codes: the filter works option by option. */
  lemma {:induction false} CollectIssuersAppend(a: seq<Option<string>>, b: seq<Option<string>>)
    ensures CollectIssuers(a + b) == CollectIssuers(a) + CollectIssuers(b)
    decreases |b|
  {
    if |b| > 0 {
      var b' := b[..|b| - 1];
      assert (a + b)[..|a + b| - 1] == a + b';
      CollectIssuersAppend(a, b');
    } else {
      assert a + b == a;
    }
  }

  /**
   * The tests see the raw value and the strip comes after them, so a
   * whitespace-only value is kept and yields the empty code.
   */
  lemma SpaceOnlyValueYieldsEmptyCode(v: string)
    requires v != [] && Text.AllSpace(v)
    ensures CollectIssuers([Some(v)]) == [""]
  {
    assert [Some(v)][..0] == [];
    Text.SpaceOnlyStripsToEmpty(v);
  }

  /** A single option contributes its stripped value when it is kept, and nothing otherwise. */
  lemma CollectIssuersSingle(option: Option<string>)
    ensures CollectIssuers([option]) == if Keep(option) then [Text.Strip(option.value)] else []
  {
    assert [option][..0] == [];
  }

  /** A value with no whitespace at its ends is emitted unchanged. */
  lemma StripTrimmed(v: string)
    requires Text.Trimmed(v)
    ensures Text.Strip(v) == v
  {
    assert Text.StripSlice(v, 0, |v|) && v[0..|v|] == v;
    Text.StripUnique(v, v);
  }

  /** Absent, empty and digit-bearing values are dropped; the rest keep their order. */
  lemma DropdownExample()
    ensures CollectIssuers([Some("KMB"), Some("ALK"), Some("123X"), None, Some("")])
      == ["KMB", "ALK"]
  {
    assert !Text.HasDigit("KMB") by {
      forall k | 0 <= k < 3 ensures !Text.IsDigit("KMB"[k]) { }
    }
    assert !Text.HasDigit("ALK") by {
      forall k | 0 <= k < 3 ensures !Text.IsDigit("ALK"[k]) { }
    }
    assert Text.IsDigit("123X"[0]);
    StripTrimmed("KMB");
    StripTrimmed("ALK");
    CollectIssuersSingle(Some("KMB"));
    CollectIssuersSingle(Some("ALK"));
    CollectIssuersSingle(Some("123X"));
    CollectIssuersSingle(None);
    CollectIssuersSingle(Some(""));
    var a, b, c, d, e := Some("KMB"), Some("ALK"), Some("123X"), None, Some("");
    CollectIssuersAppend([a], [b]);
    assert [a] + [b] == [a, b];
    CollectIssuersAppend([a, b], [c]);
    assert [a, b] + [c] == [a, b, c];
    CollectIssuersAppend([a, b, c], [d]);
    assert [a, b, c] + [d] == [a, b, c, d];
    CollectIssuersAppend([a, b, c, d], [e]);
    assert [a, b, c, d] + [e] == [a, b, c, d, e];
  }
}
