/** NodeNamingUtility: the text helpers nodes use to describe themselves. */
module NodeNaming {
  import W = Wrappers
  import opened Strings

  /**
   * NodeNamingUtility.Plural(n, text). The count enters only through the
   * test `n == 1.0f`, given here as `countIsOne`; `None` is a null text.
   */
  function Plural(countIsOne: bool, text: W.Option<string>): (r: W.Option<string>)
    // null stays null, and a text is only ever extended
    ensures r.Some? <==> text.Some?
    ensures text.Some? ==> StartsWith(r.value, text.value)
    // the text is kept as it is exactly for blank text or a count of one
    ensures r == text <==> (IsNullOrWhiteSpace(text) || countIsOne)
    // otherwise the plural ends in "s", and a final "s" gets "es"
    ensures r != text ==> EndsWith(r.value, "s")
    ensures r != text && EndsWith(text.value, "s") ==> EndsWith(r.value, "es")
    ensures r != text ==> |r.value| == |text.value| + (if EndsWith(text.value, "s") then 2 else 1)
  {
    if IsNullOrWhiteSpace(text) then text
    else if countIsOne then text
    else if EndsWith(text.value, "s") then W.Some(text.value + "es")
    else W.Some(text.value + "s")
  }

  /** The documented example: 10.43 "meter" reads "meters"; a word in "s" takes "es". */
  lemma PluralExamples()
    ensures Plural(false, W.Some("meter")) == W.Some("meters")
    ensures Plural(false, W.Some("bus")) == W.Some("buses")
    ensures Plural(true, W.Some("meter")) == W.Some("meter")
    ensures Plural(false, W.Some("  ")) == W.Some("  ")
  {
    assert "meter"[4..][0] == 'r';
    assert "bus"[2..] == "s";
    assert "meter" + "s" == "meters";
    assert "bus" + "es" == "buses";
    assert !IsNullOrWhiteSpace(W.Some("meter")) by {
      assert !IsWhiteSpace("meter"[0]);
    }
    assert !IsNullOrWhiteSpace(W.Some("bus")) by {
      assert !IsWhiteSpace("bus"[0]);
    }
  }
}
