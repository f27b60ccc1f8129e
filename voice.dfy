/** The voice preference of `setup_tts_voice`. */
module Voice {
  import opened Common
  import opened Text

  /** An installed voice of the speech engine, by its `id` and `name`. */
  datatype Voice = Voice(id: string, name: string)

  /** The rate set at start-up, in words per minute. */
  const DefaultRate: int := 180

  /** The lower-cased name mentions `female` or `zira`. */
  predicate IsPreferred(v: Voice)
  {
    Contains(Lower(v.name), "female") || Contains(Lower(v.name), "zira")
  }

  /** `next((v.id for v in voices if ...), None)`: the id of the first preferred voice, if any. */
  function FemaleVoiceId(voices: seq<Voice>): (r: Option<string>)
    ensures r.None? <==> forall k :: 0 <= k < |voices| ==> !IsPreferred(voices[k])
    ensures r.Some? ==>
      exists k :: 0 <= k < |voices| && IsPreferred(voices[k]) && voices[k].id == r.value &&
        forall j :: 0 <= j < k ==> !IsPreferred(voices[j])
  {
    if voices == [] then None
    else if IsPreferred(voices[0]) then Some(voices[0].id)
    else
      var r := FemaleVoiceId(voices[1..]);
      assert forall k :: 1 <= k < |voices| ==> voices[k] == voices[1..][k - 1];
      r
  }

  /**
   * The voice the engine uses after set-up: the preferred voice's id when it
   * is truthy (a non-empty string), otherwise the engine's own default.
   */
  function ConfiguredVoice(voices: seq<Voice>, engineDefault: string): (r: string)
    ensures r != engineDefault ==> exists k :: 0 <= k < |voices| && IsPreferred(voices[k]) && voices[k].id == r
    ensures (forall k :: 0 <= k < |voices| ==> !IsPreferred(voices[k])) ==> r == engineDefault
    ensures FemaleVoiceId(voices).Some? && FemaleVoiceId(voices).value != "" ==> r == FemaleVoiceId(voices).value
    ensures FemaleVoiceId(voices).Some? && FemaleVoiceId(voices).value == "" ==> r == engineDefault
  {
    match FemaleVoiceId(voices)
    case Some(id) => if id != "" then id else engineDefault
    case None => engineDefault
  }
}
