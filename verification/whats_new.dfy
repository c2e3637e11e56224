/**
 This module models the start-up step that reads the last recorded version
 from the editor's global state, overwrites it with the running version, and
 decides whether to show the "what's new" notice. The host's persistent
 global state is a map from keys to strings; the running version and the
 platform test are parameters.
 */
module WhatsNew {
  import opened Wrappers
  import opened VersionGate
  import opened JsNumber

  /** The key under which the last seen version is stored. */
  const ExtensionId: string := "ahnafnafee.postscript-preview"

  type GlobalState = map<string, string>

  /** What one decision produces: whether to notify, and the value to store. */
  datatype Decision = Decision(notify: bool, stored: string)

  /** The state after start-up and whether the notice is shown. */
  datatype Startup = Startup(notify: bool, state: GlobalState)

  /** `globalState.get(key)`: `None` (JavaScript `undefined`) for a key never stored. */
  function Lookup(state: GlobalState, key: string): (r: Option<string>)
    ensures r.Some? <==> key in state
    ensures r.Some? ==> r.value == state[key]
  {
    if key in state then Some(state[key]) else None
  }

  /**
   The decision of `showWhatsNew` on the previously stored version (`None`
   on the first run) and the running version.
   */
  function Decide(previous: Option<string>, current: string): (d: Decision)
    ensures d.stored == current
    ensures previous.None? ==> d.notify
    ensures previous.Some? && '.' !in previous.value ==> d.notify
    ensures d.notify && previous.Some? && '.' in previous.value ==> '.' in current
  {
    Decision(previous.None? || IsMajorUpdate(previous.value, current), current)
  }

  /** `showWhatsNew` applied to the global state. */
  function ShowWhatsNew(state: GlobalState, current: string): (s: Startup)
    ensures ExtensionId in s.state && s.state[ExtensionId] == current
    ensures s.state.Keys == state.Keys + {ExtensionId}
    ensures forall k :: k in state && k != ExtensionId ==> s.state[k] == state[k]
    ensures ExtensionId !in state ==> s.notify
  {
    var d := Decide(Lookup(state, ExtensionId), current);
    Startup(d.notify, state[ExtensionId := d.stored])
  }

  /** Activation: the notice logic only runs on Windows; elsewhere nothing changes. */
  function Activate(isWindows: bool, state: GlobalState, current: string): (s: Startup)
    ensures !isWindows ==> !s.notify && s.state == state
    ensures isWindows ==> ExtensionId in s.state && s.state[ExtensionId] == current
    ensures isWindows && ExtensionId !in state ==> s.notify
  {
    if isWindows then ShowWhatsNew(state, current) else Startup(false, state)
  }

  /**
   A second start-up with the same dotted version is silent and leaves the
   state as the first one left it: the notice is shown at most once per
   version.
   */
  lemma AtMostOncePerVersion(state: GlobalState, current: string)
    requires '.' in current
    ensures var first := ShowWhatsNew(state, current);
            var second := ShowWhatsNew(first.state, current);
            !second.notify && second.state == first.state
  {
    var first := ShowWhatsNew(state, current);
    Irreflexive(current);
    assert first.state[ExtensionId := current] == first.state;
  }

  /** A running version without a dot fails open on every later start-up: the notice repeats. */
  lemma UndottedVersionRepeats(state: GlobalState, current: string)
    requires '.' !in current
    ensures ShowWhatsNew(ShowWhatsNew(state, current).state, current).notify
  {
  }

  /** Whatever was stored before, the stored value after start-up is the running version. */
  lemma StoredValueIsCurrent(state: GlobalState, current: string)
    ensures Lookup(ShowWhatsNew(state, current).state, ExtensionId) == Some(current)
  {
  }

  /** The state after start-up depends only on the running version and the other keys, not on the old record. */
  lemma StateIndependentOfRecord(state: GlobalState, previous: string, current: string)
    ensures ShowWhatsNew(state[ExtensionId := previous], current).state
         == ShowWhatsNew(state - {ExtensionId}, current).state
  {
    assert state[ExtensionId := previous][ExtensionId := current] == (state - {ExtensionId})[ExtensionId := current];
  }

  /**
   With a dotted record and a dotted running version, the notice shows
   exactly when both minor pieces are numbers and the running one is larger;
   major and patch numbers play no part.
   */
  lemma NotifyIffMinorGrows(state: GlobalState, pMajor: string, pMinor: string, pRest: string,
                            cMajor: string, cMinor: string, cRest: string)
    requires WellCut(pMajor, pMinor, pRest) && WellCut(cMajor, cMinor, cRest)
    requires ExtensionId in state && state[ExtensionId] == Version(pMajor, pMinor, pRest)
    ensures ShowWhatsNew(state, Version(cMajor, cMinor, cRest)).notify
        <==> (ToNumber(pMinor).Some? && ToNumber(cMinor).Some? && ToNumber(cMinor).value > ToNumber(pMinor).value)
  {
    IsMajorUpdateByMinor(pMajor, pMinor, pRest, cMajor, cMinor, cRest);
  }
}
