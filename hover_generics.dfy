/** Resolving type parameters in hover signatures (HoverGenericsResolver).

    For a call of a generic executable, each of the executable's type parameters
    that has a bound argument at the call is replaced, as a whole word, by the
    bound's simple name; the replacements run one after another, each on the
    result of the previous one. */
module HoverGenerics {
  import opened Wrappers

  // ---------------------------------------------------------------------------
  // Text replacement: String.replaceAll with "\b" + quoted name + "\b", and
  // String.replace

  /** A character regex `\b` counts as part of a word. */
  predicate IsWordChar(c: char)
  {
    ('a' <= c <= 'z') || ('A' <= c <= 'Z') || ('0' <= c <= '9') || c == '_'
  }

  /** Whether position j holds a word character; positions outside the text do not. */
  predicate WordAt(s: string, j: int)
  {
    0 <= j < |s| && IsWordChar(s[j])
  }

  /** `\b` holds at position i: a word character on exactly one side. */
  predicate Boundary(s: string, i: int)
  {
    WordAt(s, i - 1) != WordAt(s, i)
  }

  /** The pattern occurs literally at position i, with word boundaries at both of
      its ends when `wholeWord` is asked for. */
  predicate MatchAt(s: string, p: string, i: nat, wholeWord: bool)
  {
    && i + |p| <= |s|
    && s[i..i + |p|] == p
    && (wholeWord ==> Boundary(s, i) && Boundary(s, i + |p|))
  }

  /** The text from position i on, with every match of `p` replaced by `w`, matches
      taken leftmost first and never overlapping; after an empty match the scan
      copies one character before trying again, as java.util.regex does. */
  function ReplaceFrom(s: string, p: string, w: string, i: nat, wholeWord: bool): (r: string)
    requires i <= |s|
    decreases |s| - i
    ensures |p| > 0 && |w| == |p| ==> |r| == |s| - i
  {
    if MatchAt(s, p, i, wholeWord) then
      if |p| == 0 then
        w + (if i < |s| then [s[i]] + ReplaceFrom(s, p, w, i + 1, wholeWord) else "")
      else
        w + ReplaceFrom(s, p, w, i + |p|, wholeWord)
    else if i < |s| then
      [s[i]] + ReplaceFrom(s, p, w, i + 1, wholeWord)
    else
      ""
  }

  /** output.replaceAll("\\b" + Pattern.quote(p) + "\\b", w): a name without a
      whole-word occurrence, or replaced by itself, leaves the text as it is, and a
      replacement of the same length keeps the text's length. */
  function ReplaceWord(s: string, p: string, w: string): (r: string)
    ensures (forall j :: 0 <= j <= |s| ==> !MatchAt(s, p, j, true)) ==> r == s
    ensures w == p ==> r == s
    ensures |p| > 0 && |w| == |p| ==> |r| == |s|
  {
    ReplaceBySelf(s, p, 0, true);
    NoMatchUnchanged(s, p, w, 0, true);
    ReplaceFrom(s, p, w, 0, true)
  }

  /** html.replace(p, w): text without an occurrence, or a string replaced by
      itself, leaves the text as it is. */
  function ReplaceLiteral(s: string, p: string, w: string): (r: string)
    ensures (forall j :: 0 <= j <= |s| ==> !MatchAt(s, p, j, false)) ==> r == s
    ensures w == p ==> r == s
  {
    ReplaceBySelf(s, p, 0, false);
    NoMatchUnchanged(s, p, w, 0, false);
    ReplaceFrom(s, p, w, 0, false)
  }

  /** Text with no match from position i on comes back unchanged. */
  lemma {:induction false} NoMatchUnchanged(s: string, p: string, w: string, i: nat, wholeWord: bool)
    ensures i <= |s| && (forall j :: i <= j <= |s| ==> !MatchAt(s, p, j, wholeWord)) ==>
              ReplaceFrom(s, p, w, i, wholeWord) == s[i..]
    decreases |s| - i
  {
    if i < |s| && (forall j :: i <= j <= |s| ==> !MatchAt(s, p, j, wholeWord)) {
      NoMatchUnchanged(s, p, w, i + 1, wholeWord);
      assert s[i..] == [s[i]] + s[i + 1..];
    }
  }

  /** Replacing a name by itself changes nothing. */
  lemma {:induction false} ReplaceBySelf(s: string, p: string, i: nat, wholeWord: bool)
    requires i <= |s|
    ensures ReplaceFrom(s, p, p, i, wholeWord) == s[i..]
    decreases |s| - i
  {
    if MatchAt(s, p, i, wholeWord) {
      if |p| == 0 {
        if i < |s| {
          ReplaceBySelf(s, p, i + 1, wholeWord);
          assert s[i..] == [s[i]] + s[i + 1..];
        }
      } else {
        ReplaceBySelf(s, p, i + |p|, wholeWord);
        assert s[i..] == s[i..i + |p|] + s[i + |p|..];
      }
    } else if i < |s| {
      ReplaceBySelf(s, p, i + 1, wholeWord);
      assert s[i..] == [s[i]] + s[i + 1..];
    }
  }

  /** Text up to the first match is copied as it is. */
  lemma {:induction false} PrefixBeforeFirstMatchKept(s: string, p: string, w: string, i: nat, k: nat, wholeWord: bool)
    requires i <= k <= |s|
    requires forall j :: i <= j < k ==> !MatchAt(s, p, j, wholeWord)
    ensures ReplaceFrom(s, p, w, i, wholeWord) == s[i..k] + ReplaceFrom(s, p, w, k, wholeWord)
    decreases k - i
  {
    if i < k {
      PrefixBeforeFirstMatchKept(s, p, w, i + 1, k, wholeWord);
      assert s[i..k] == [s[i]] + s[i + 1..k];
    }
  }

  /** A name occurring only inside longer words is left alone. */
  lemma OnlyWholeWordsReplaced(s: string, p: string, w: string)
    requires forall j :: 0 <= j && j + |p| <= |s| && s[j..j + |p|] == p ==> !Boundary(s, j) || !Boundary(s, j + |p|)
    ensures ReplaceWord(s, p, w) == s
  {
  }

  /** An example: the parameter `T` is replaced where it stands alone, and not
      inside the longer name `Tx`. */
  lemma WholeWordExample()
    ensures ReplaceWord("T Tx", "T", "S") == "S Tx"
  {
    var s := "T Tx";
    assert !MatchAt(s, "T", 4, true);
    assert ReplaceFrom(s, "T", "S", 4, true) == "";
    assert !MatchAt(s, "T", 3, true) by { assert s[3..4] == "x"; }
    assert ReplaceFrom(s, "T", "S", 3, true) == "x";
    assert !Boundary(s, 3) by { assert WordAt(s, 2) && WordAt(s, 3); }
    assert ReplaceFrom(s, "T", "S", 2, true) == "Tx";
    assert !MatchAt(s, "T", 1, true) by { assert s[1..2] == " "; }
    assert ReplaceFrom(s, "T", "S", 1, true) == " Tx";
    assert MatchAt(s, "T", 0, true) by {
      assert s[0..1] == "T";
      assert !WordAt(s, -1) && WordAt(s, 0) && !WordAt(s, 1);
    }
  }

  // ---------------------------------------------------------------------------
  // replaceGenerics

  datatype TypeParameter = TypeParameter(simpleName: string)
  datatype BoundType = BoundType(simpleName: string)

  /** A pair of getBoundTypePairs: a type parameter and what it is bound to;
      either side may be null. */
  datatype BoundTypePair = BoundTypePair(unresolved: Option<TypeParameter>, resolved: Option<BoundType>)

  datatype Feature = Executable(typeParameters: seq<TypeParameter>) | OtherFeature
  datatype FeatureCall = FeatureCall(feature: Feature)

  /** One step of replaceGenerics: a complete pair replaces its name as a whole
      word, an incomplete pair is skipped. */
  function ReplacePair(s: string, pair: BoundTypePair): string
  {
    if pair.unresolved.Some? && pair.resolved.Some? then
      ReplaceWord(s, pair.unresolved.value.simpleName, pair.resolved.value.simpleName)
    else s
  }

  /** The pairs applied in order, each on the previous output. */
  function ReplacePairs(s: string, pairs: seq<BoundTypePair>): string
  {
    if pairs == [] then s else ReplacePair(ReplacePairs(s, pairs[..|pairs| - 1]), pairs[|pairs| - 1])
  }

  /** Applying a list of pairs is applying its first part, then its second. */
  lemma {:induction false} ReplacePairsSequential(s: string, a: seq<BoundTypePair>, b: seq<BoundTypePair>)
    ensures ReplacePairs(s, a + b) == ReplacePairs(ReplacePairs(s, a), b)
    decreases |b|
  {
    if b == [] {
      assert a + b == a;
    } else {
      ReplacePairsSequential(s, a, b[..|b| - 1]);
      assert (a + b)[..|a + b| - 1] == a + b[..|b| - 1];
    }
  }

  /** The pairs with both sides present. */
  function CompletePairs(pairs: seq<BoundTypePair>): (r: seq<BoundTypePair>)
    ensures |r| <= |pairs|
    ensures forall i :: 0 <= i < |r| ==> r[i].unresolved.Some? && r[i].resolved.Some?
  {
    if pairs == [] then []
    else
      assert pairs == pairs[..|pairs| - 1] + [pairs[|pairs| - 1]];
      CompletePairs(pairs[..|pairs| - 1])
      + (var q := pairs[|pairs| - 1]; if q.unresolved.Some? && q.resolved.Some? then [q] else [])
  }

  /** A pair is kept exactly when it is in the list and both its sides are present. */
  lemma {:induction false} CompletePairsMembers(pairs: seq<BoundTypePair>)
    ensures forall q :: q in CompletePairs(pairs) <==> q in pairs && q.unresolved.Some? && q.resolved.Some?
    decreases |pairs|
  {
    if pairs != [] {
      var init := pairs[..|pairs| - 1];
      assert pairs == init + [pairs[|pairs| - 1]];
      CompletePairsMembers(init);
    }
  }

  /** Selecting the complete pairs works piecewise, so their order is kept. */
  lemma {:induction false} CompletePairsConcat(a: seq<BoundTypePair>, b: seq<BoundTypePair>)
    ensures CompletePairs(a + b) == CompletePairs(a) + CompletePairs(b)
    decreases |b|
  {
    if b == [] {
      assert a + b == a;
    } else {
      var init := b[..|b| - 1];
      var last := b[|b| - 1];
      var tail := if last.unresolved.Some? && last.resolved.Some? then [last] else [];
      CompletePairsConcat(a, init);
      assert (a + b)[..|a + b| - 1] == a + init;
      assert (a + b)[|a + b| - 1] == last;
      assert CompletePairs(a + b) == CompletePairs(a + init) + tail;
      assert CompletePairs(b) == CompletePairs(init) + tail;
    }
  }

  /** Incomplete pairs contribute nothing. */
  lemma {:induction false} IncompletePairsSkipped(s: string, pairs: seq<BoundTypePair>)
    ensures ReplacePairs(s, pairs) == ReplacePairs(s, CompletePairs(pairs))
    decreases |pairs|
  {
    if pairs != [] {
      var init := pairs[..|pairs| - 1];
      var q := pairs[|pairs| - 1];
      IncompletePairsSkipped(s, init);
      if q.unresolved.Some? && q.resolved.Some? {
        ReplacePairsSequential(s, CompletePairs(init), [q]);
      } else {
        assert CompletePairs(pairs) == CompletePairs(init) + [];
        assert CompletePairs(init) + [] == CompletePairs(init);
      }
    }
  }

  /** The pairs getBoundTypePairs builds: one per type parameter, in order. */
  function BoundTypePairs(typeParameters: seq<TypeParameter>, boundArgument: TypeParameter -> Option<BoundType>): (r: seq<BoundTypePair>)
    ensures |r| == |typeParameters|
    ensures forall i :: 0 <= i < |r| ==> r[i] == BoundTypePair(Some(typeParameters[i]), boundArgument(typeParameters[i]))
  {
    if typeParameters == [] then []
    else BoundTypePairs(typeParameters[..|typeParameters| - 1], boundArgument)
         + [BoundTypePair(Some(typeParameters[|typeParameters| - 1]), boundArgument(typeParameters[|typeParameters| - 1]))]
  }

  /** getBoundTypePairs, with the type argument context of the call given as
      `boundArgument`. */
  method GetBoundTypePairs(typeParameters: seq<TypeParameter>, boundArgument: TypeParameter -> Option<BoundType>)
    returns (pairs: seq<BoundTypePair>)
    ensures |pairs| == |typeParameters|
    ensures forall i :: 0 <= i < |pairs| ==> pairs[i] == BoundTypePair(Some(typeParameters[i]), boundArgument(typeParameters[i]))
  {
    pairs := [];
    var i := 0;
    while i < |typeParameters|
      invariant 0 <= i <= |typeParameters|
      invariant |pairs| == i
      invariant forall j :: 0 <= j < i ==> pairs[j] == BoundTypePair(Some(typeParameters[j]), boundArgument(typeParameters[j]))
    {
      pairs := pairs + [BoundTypePair(Some(typeParameters[i]), boundArgument(typeParameters[i]))];
      i := i + 1;
    }
  }

  /** What replaceGenerics computes. */
  function ResolvedSignature(featureCall: Option<FeatureCall>, input: string, boundArgument: TypeParameter -> Option<BoundType>): string
  {
    if featureCall.Some? && featureCall.value.feature.Executable? then
      ReplacePairs(input, BoundTypePairs(featureCall.value.feature.typeParameters, boundArgument))
    else input
  }

  /** replaceGenerics */
  method ReplaceGenerics(featureCall: Option<FeatureCall>, input: string, boundArgument: TypeParameter -> Option<BoundType>)
    returns (output: string)
    ensures output == ResolvedSignature(featureCall, input, boundArgument)
    ensures featureCall.None? || featureCall.value.feature.OtherFeature? ==> output == input
  {
    output := input;
    if featureCall.Some? && featureCall.value.feature.Executable? {
      var pairs := GetBoundTypePairs(featureCall.value.feature.typeParameters, boundArgument);
      assert pairs == BoundTypePairs(featureCall.value.feature.typeParameters, boundArgument);
      var i := 0;
      while i < |pairs|
        invariant 0 <= i <= |pairs|
        invariant output == ReplacePairs(input, pairs[..i])
      {
        var unresolvedType := pairs[i].unresolved;
        var resolvedType := pairs[i].resolved;
        if unresolvedType.Some? && resolvedType.Some? {
          output := ReplaceWord(output, unresolvedType.value.simpleName, resolvedType.value.simpleName);
        }
        assert pairs[..i + 1][..i] == pairs[..i];
        i := i + 1;
      }
      assert pairs[..i] == pairs;
    }
  }

  /** resolveSignatureInHtml, given the Java signature of the element (computed
      by JDT's label code). */
  method ResolveSignatureInHtml(featureCall: Option<FeatureCall>, signature: string, html: string,
                                boundArgument: TypeParameter -> Option<BoundType>)
    returns (result: string)
    ensures result == ReplaceLiteral(html, signature, ResolvedSignature(featureCall, signature, boundArgument))
    ensures featureCall.None? ==> result == html
  {
    var resolvedSignature := ReplaceGenerics(featureCall, signature, boundArgument);
    result := ReplaceLiteral(html, signature, resolvedSignature);
    if featureCall.None? {
      assert resolvedSignature == signature;
    }
  }

  /** A generic call whose parameters are all unbound leaves the signature as it is. */
  lemma UnboundParametersChangeNothing(typeParameters: seq<TypeParameter>, input: string,
                                       boundArgument: TypeParameter -> Option<BoundType>)
    requires forall i :: 0 <= i < |typeParameters| ==> boundArgument(typeParameters[i]).None?
    ensures ResolvedSignature(Some(FeatureCall(Executable(typeParameters))), input, boundArgument) == input
  {
    var pairs := BoundTypePairs(typeParameters, boundArgument);
    IncompletePairsSkipped(input, pairs);
    NoCompletePairs(pairs);
  }

  lemma {:induction false} NoCompletePairs(pairs: seq<BoundTypePair>)
    requires forall i :: 0 <= i < |pairs| ==> pairs[i].resolved.None?
    ensures CompletePairs(pairs) == []
    decreases |pairs|
  {
    if pairs != [] {
      NoCompletePairs(pairs[..|pairs| - 1]);
    }
  }
}
