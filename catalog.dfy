/** The source catalog: the fixed allow-list of displayed categories and the
    lookups by categorical value. */
module Catalog {
  import opened Seqs
  import opened JsBuiltins
  import opened Types

  /** The four category names that are ever displayed. */
  const FilteredSources: seq<string> := ["RtBatt", "RtBS", "RtDB", "RtDSB"]

  /** `sources.filter((source) => FILTERED_SOURCES.includes(source.name))`. */
  function Displayed(sources: seq<RuntimeSource>): (shown: seq<RuntimeSource>)
    ensures forall s :: s in shown <==> s in sources && s.name in FilteredSources
    ensures IsSubseq(shown, sources)
  {
    var p := (s: RuntimeSource) => s.name in FilteredSources;
    FilterSubseq(sources, p);
    Filter(sources, p)
  }

  /** `sources.find((s) => s.value === v)`. */
  function MatchSource(sources: seq<RuntimeSource>, v: int): Option<RuntimeSource>
  {
    Find(sources, (s: RuntimeSource) => s.value == v)
  }

  /** A value has no displayed source exactly when every catalog source
      carrying that value has a name outside the allow-list. */
  lemma NoDisplayedMatch(sources: seq<RuntimeSource>, v: int)
    ensures MatchSource(Displayed(sources), v).None? <==>
      forall k :: 0 <= k < |sources| && sources[k].value == v ==> sources[k].name !in FilteredSources
  {
    var shown := Displayed(sources);
    if MatchSource(shown, v).None? {
      forall k | 0 <= k < |sources| && sources[k].value == v
        ensures sources[k].name !in FilteredSources
      {
      }
    } else {
      var i :| 0 <= i < |shown| && shown[i] == MatchSource(shown, v).value;
      var k :| 0 <= k < |sources| && sources[k] == shown[i];
    }
  }
}
