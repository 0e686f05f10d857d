/** How an operation decides, from nullable per-call arguments and the client's
    settings, whether to drop the session afterwards and whether to dispose the
    caller's stream. */
module Policy {

  /** A C# `bool?`. */
  datatype NullableBool = Null | Value(b: bool)

  /** `x ?? fallback` for a `bool?` and a `bool`. */
  function Coalesce(x: NullableBool, fallback: bool): bool {
    match x
    case Null => fallback
    case Value(b) => b
  }

  /** `x ?? y` for two `bool?` values. */
  function Or(x: NullableBool, y: NullableBool): NullableBool {
    if x.Value? then x else y
  }

  /** `if (keepConnectionOpen is null) keepConnectionOpen = this.KeepConnectionOpen;` */
  function ResolveKeepOpen(keepConnectionOpen: NullableBool, instance: bool): bool {
    Coalesce(keepConnectionOpen, instance)
  }

  /** The `finally` of every operation: `if (keepConnectionOpen != true) Disconnect();`. */
  predicate DropsSession(keepConnectionOpen: NullableBool, instance: bool) {
    ResolveKeepOpen(keepConnectionOpen, instance) != true
  }

  /** `if (closeStream is null) closeStream = this.AutoCloseStreams ?? GlobalAutoCloseStreams;`
      followed by `if (closeStream == true) stream.Dispose();`. */
  predicate ClosesStream(closeStream: NullableBool, autoCloseStreams: NullableBool, global: bool) {
    Coalesce(closeStream, Coalesce(autoCloseStreams, global))
  }

  /** The legacy client: `disableAutoDisconnect ??= this.DisableAutoDisconnect`, then
      `if (disableAutoDisconnect == false) Disconnect();`. */
  predicate LegacyDropsSession(disableAutoDisconnect: NullableBool, instance: bool) {
    Coalesce(disableAutoDisconnect, instance) == false
  }

  /** The first setting that is not null, read from the most specific level
      outwards, or the default when all of them are null. */
  function FirstSet(levels: seq<NullableBool>, default: bool): bool {
    if levels == [] then default
    else if levels[0].Value? then levels[0].b
    else FirstSet(levels[1..], default)
  }

  /** The session is dropped exactly when the per-call argument says so, or, when
      it is null, when the client's setting says so; a per-call `true` always
      keeps it, whatever the setting. */
  lemma KeepOpenResolution(keepConnectionOpen: NullableBool, instance: bool)
    ensures DropsSession(keepConnectionOpen, instance)
      <==> (keepConnectionOpen == Value(false) || (keepConnectionOpen.Null? && !instance))
    ensures keepConnectionOpen == Value(true) ==> !DropsSession(keepConnectionOpen, instance)
  {
  }

  /** The three-level fallback of the close-stream flag is the first non-null of
      the per-call argument, the instance setting and the global setting, and it
      is the same as resolving the two nullable levels with `??` first. */
  lemma CloseStreamFallback(closeStream: NullableBool, autoCloseStreams: NullableBool, global: bool)
    ensures ClosesStream(closeStream, autoCloseStreams, global)
      == FirstSet([closeStream, autoCloseStreams], global)
    ensures ClosesStream(closeStream, autoCloseStreams, global)
      == Coalesce(Or(closeStream, autoCloseStreams), global)
  {
    var levels := [closeStream, autoCloseStreams];
    assert levels[1..] == [autoCloseStreams];
    assert levels[1..][1..] == [];
    assert FirstSet(levels[1..][1..], global) == global;
  }

  /** Once a setting is non-null, the settings further out no longer matter. */
  lemma {:induction false} FirstSetStopsAtValue(levels: seq<NullableBool>, i: nat, default: bool)
    requires i < |levels| && levels[i].Value?
    requires forall j | 0 <= j < i :: levels[j].Null?
    ensures FirstSet(levels, default) == levels[i].b
  {
    if i > 0 {
      assert levels[0].Null?;
      FirstSetStopsAtValue(levels[1..], i - 1, default);
    }
  }

  /** The legacy flag is the keep-open flag under another name
      (`DisableAutoDisconnect`), and the legacy client disconnects when it
      resolves to false; the newer client disconnects when its flag resolves to
      anything but true. Since a resolved flag is never null, the two policies
      agree on every input. */
  lemma LegacyPolicyAgrees(flag: NullableBool, instance: bool)
    ensures LegacyDropsSession(flag, instance) == DropsSession(flag, instance)
  {
  }
}
