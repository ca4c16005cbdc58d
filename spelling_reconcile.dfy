/** Spell checking of an Xtext document (XtextSpellingReconcileStrategy).

    Whatever region the reconciler reports, the whole document is partitioned
    with the default partitioning, and only string literals and comments are
    handed to the spelling service. */
module SpellingReconcile {
  import opened Wrappers

  /** The partition types of string literals, single-line and multi-line comments
      (TerminalsTokenTypeToPartitionMapper). */
  const StringLiteralPartition: string := "__string"
  const SingleLineCommentPartition: string := "__sl_comment"
  const CommentPartition: string := "__comment"

  /** IDocumentExtension3.DEFAULT_PARTITIONING */
  const DefaultPartitioning: string := "__dftl_partitioning"

  /** IDocument.DEFAULT_CONTENT_TYPE, the type of ordinary code. */
  const DefaultContentType: string := "__dftl_partition_content_type"

  datatype Region = Region(offset: int, length: int)
  datatype TypedRegion = TypedRegion(offset: int, length: int, partitionType: string)

  /** The BadLocationException TextUtilities.computePartitioning may throw. */
  datatype BadLocation = BadLocation

  /** A document: its length and what TextUtilities.computePartitioning answers for
      it, given a partitioning, an offset and a length. */
  datatype Document = Document(
    length: nat,
    partitioning: (string, int, int) -> Result<seq<TypedRegion>, BadLocation>)

  datatype ProblemCollector = ProblemCollector(id: nat)

  /** One call of SpellingService.check: the document, the regions to check and
      the collector that receives the problems. */
  datatype CheckRequest = CheckRequest(document: Document, regions: seq<TypedRegion>, collector: ProblemCollector)

  /** shouldProcess: string literals and comments are spell checked; code, of the
      default content type, is not. */
  predicate ShouldProcess(region: TypedRegion)
    ensures ShouldProcess(region) ==> region.partitionType != DefaultContentType
  {
    || region.partitionType == StringLiteralPartition
    || region.partitionType == SingleLineCommentPartition
    || region.partitionType == CommentPartition
  }

  /** The regions to spell check, in the order of the partitioning. */
  function SpellableRegions(regions: seq<TypedRegion>): (r: seq<TypedRegion>)
    ensures |r| <= |regions|
  {
    if regions == [] then []
    else
      var init := regions[..|regions| - 1];
      var last := regions[|regions| - 1];
      assert regions == init + [last];
      if ShouldProcess(last) then SpellableRegions(init) + [last] else SpellableRegions(init)
  }

  /** What computePartitioning returns for an answer of the partitioner: nothing
      when it failed. */
  function Spellable(outcome: Result<seq<TypedRegion>, BadLocation>): (r: seq<TypedRegion>)
    ensures outcome.Failure? ==> r == []
    ensures outcome.Success? ==> forall t :: t in r <==> t in outcome.value && ShouldProcess(t)
  {
    if outcome.Success? then SpellableRegionsMembers(outcome.value); SpellableRegions(outcome.value) else []
  }

  /** Filtering works piecewise, so the partitioner's order is kept. */
  lemma {:induction false} SpellableRegionsConcat(a: seq<TypedRegion>, b: seq<TypedRegion>)
    ensures SpellableRegions(a + b) == SpellableRegions(a) + SpellableRegions(b)
    decreases |b|
  {
    if b == [] {
      assert a + b == a;
    } else {
      var init := b[..|b| - 1];
      SpellableRegionsConcat(a, init);
      assert (a + b)[..|a + b| - 1] == a + init;
      assert (a + b)[|a + b| - 1] == b[|b| - 1];
    }
  }

  /** A region is checked exactly when the partitioner reported it and it is spellable. */
  lemma {:induction false} SpellableRegionsMembers(regions: seq<TypedRegion>)
    ensures forall t :: t in SpellableRegions(regions) <==> t in regions && ShouldProcess(t)
    decreases |regions|
  {
    if regions != [] {
      var init := regions[..|regions| - 1];
      var last := regions[|regions| - 1];
      assert regions == init + [last];
      SpellableRegionsMembers(init);
    }
  }

  /** The regions are kept as they are exactly when every one is spellable. */
  lemma {:induction false} SpellableRegionsKeepsAll(regions: seq<TypedRegion>)
    ensures SpellableRegions(regions) == regions <==> forall i :: 0 <= i < |regions| ==> ShouldProcess(regions[i])
    decreases |regions|
  {
    if regions != [] {
      var init := regions[..|regions| - 1];
      var last := regions[|regions| - 1];
      assert regions == init + [last];
      SpellableRegionsKeepsAll(init);
      var all := forall i :: 0 <= i < |regions| ==> ShouldProcess(regions[i]);
      var allInit := forall i :: 0 <= i < |init| ==> ShouldProcess(init[i]);
      assert all <==> allInit && ShouldProcess(last) by {
        assert forall i :: 0 <= i < |init| ==> init[i] == regions[i];
      }
      if !ShouldProcess(last) {
        assert SpellableRegions(regions) == SpellableRegions(init);
        assert |SpellableRegions(regions)| < |regions|;
      } else {
        var kept := SpellableRegions(init);
        assert SpellableRegions(regions) == kept + [last];
        assert SpellableRegions(regions) == regions <==> kept == init by {
          if kept + [last] == regions {
            assert (kept + [last])[..|kept|] == kept;
          }
        }
      }
    }
  }

  /** Filtering twice is filtering once. */
  lemma SpellableRegionsIdempotent(regions: seq<TypedRegion>)
    ensures SpellableRegions(SpellableRegions(regions)) == SpellableRegions(regions)
  {
    var r := SpellableRegions(regions);
    SpellableRegionsMembers(regions);
    forall i | 0 <= i < |r| ensures ShouldProcess(r[i]) {
      assert r[i] in r;
    }
    SpellableRegionsKeepsAll(r);
  }

  class SpellingReconcileStrategy {
    /** The document set by setDocument. */
    var document: Option<Document>
    /** The collector createSpellingProblemCollector made; null without an annotation model. */
    var problemCollector: Option<ProblemCollector>
    /** The checks handed to the spelling service so far, in order. */
    var checkRequests: seq<CheckRequest>

    /** A collector only exists once a document is set. */
    ghost predicate Valid()
      reads this
    {
      problemCollector.Some? ==> document.Some?
    }

    constructor ()
      ensures Valid()
      ensures document.None? && problemCollector.None? && checkRequests == []
    {
      document := None;
      problemCollector := None;
      checkRequests := [];
    }

    /** isSpellingEnabled, given the workbench's spelling preference. */
    predicate SpellingEnabled(spellingPreference: bool)
      reads this
      ensures SpellingEnabled(spellingPreference) ==> problemCollector.Some?
      ensures !spellingPreference ==> !SpellingEnabled(spellingPreference)
    {
      problemCollector.Some? && spellingPreference
    }

    /** The check reconcile asks for: the spellable regions of the whole document
        under the default partitioning. */
    function WholeDocumentRequest(): (r: CheckRequest)
      reads this
      requires document.Some? && problemCollector.Some?
      ensures r.document == document.value && r.collector == problemCollector.value
      ensures forall t :: t in r.regions ==> ShouldProcess(t)
    {
      CheckRequest(document.value,
                   Spellable(document.value.partitioning(DefaultPartitioning, 0, document.value.length)),
                   problemCollector.value)
    }

    /** computePartitioning: the partitioner's regions of the given kind that
        should be spell checked, or none if the partitioner failed. */
    method ComputePartitioning(offset: int, length: int, partitionType: string) returns (result: seq<TypedRegion>)
      requires document.Some?
      ensures result == Spellable(document.value.partitioning(partitionType, offset, length))
    {
      result := [];
      var allRegions: seq<TypedRegion> := [];
      var outcome := document.value.partitioning(partitionType, offset, length);
      if outcome.Success? {
        allRegions := outcome.value;
      }
      var i := 0;
      while i < |allRegions|
        invariant 0 <= i <= |allRegions|
        invariant result == SpellableRegions(allRegions[..i])
      {
        assert allRegions[..i + 1][..i] == allRegions[..i];
        if ShouldProcess(allRegions[i]) {
          result := result + [allRegions[i]];
        }
        i := i + 1;
      }
      assert allRegions[..i] == allRegions;
    }

    /** reconcile: the region is ignored; when spelling is enabled, one check of
        the whole document is handed to the spelling service. */
    method Reconcile(region: Region, spellingPreference: bool)
      requires Valid()
      modifies this`checkRequests
      ensures SpellingEnabled(spellingPreference) ==> checkRequests == old(checkRequests) + [WholeDocumentRequest()]
      ensures !SpellingEnabled(spellingPreference) ==> checkRequests == old(checkRequests)
      ensures problemCollector.None? ==> checkRequests == old(checkRequests)
    {
      if !SpellingEnabled(spellingPreference) {
        return;
      }
      var regions := ComputePartitioning(0, document.value.length, DefaultPartitioning);
      checkRequests := checkRequests + [CheckRequest(document.value, regions, problemCollector.value)];
    }

    /** setDocument: keeps the document and the new collector, then reconciles
        the whole document. */
    method SetDocument(newDocument: Document, collector: Option<ProblemCollector>, spellingPreference: bool)
      modifies this
      ensures Valid()
      ensures document == Some(newDocument) && problemCollector == collector
      ensures SpellingEnabled(spellingPreference) ==> checkRequests == old(checkRequests) + [WholeDocumentRequest()]
      ensures !SpellingEnabled(spellingPreference) ==> checkRequests == old(checkRequests)
    {
      document := Some(newDocument);
      problemCollector := collector;
      Reconcile(Region(0, newDocument.length), spellingPreference);
    }
  }

  /** A partitioner that fails leads to a check of no regions at all. */
  lemma FailedPartitioningChecksNothing(s: SpellingReconcileStrategy)
    requires s.document.Some? && s.problemCollector.Some?
    requires s.document.value.partitioning(DefaultPartitioning, 0, s.document.value.length).Failure?
    ensures s.WholeDocumentRequest().regions == []
  {
  }
}
