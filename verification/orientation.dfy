/** The orientation session of scripts.js: `startCompass` and the
    `deviceorientation` handler it installs.

    The browser is an abstract record of what feature detection would find;
    the asynchronous permission request is replaced by its settled outcome,
    and the callbacks by the trace of effects the session produces. */
module Orientation {
  import opened Wrappers

  /** How the platform's `requestPermission()` settles: with an answer
      string (only "granted" lets the session go on), or by throwing an
      error carrying a message. */
  datatype Permission = Answered(answer: string) | Throws(message: string)

  /** What feature detection finds on the platform. */
  datatype Platform = Platform(
    eventDefined: bool,                // typeof DeviceOrientationEvent !== 'undefined'
    requestPermissionIsFunction: bool, // typeof ....requestPermission === 'function'
    permission: Permission)            // how the request settles, if made

  /** Which of the three optional callbacks the caller supplied. */
  datatype Handlers = Handlers(onHeading: bool, onStatus: bool, onPermissionGranted: bool)

  /** One observable effect of starting the session, in order. */
  datatype Effect =
    | Status(message: string)   // onStatus(message)
    | PermissionGranted         // onPermissionGranted()
    | ListenerAdded             // addEventListener('deviceorientation', ...)

  /** The effects of `startCompass` and the boolean its promise resolves to. */
  datatype Session = Session(effects: seq<Effect>, started: bool)

  const Warning: char := '\U{26A0}'
  const RequestingMsg: string := "Requesting sensor permission\U{2026}"
  const DeniedMsg: string := [Warning] + " Permission denied. Enable motion sensors in browser settings."
  const CouldNotRequestPrefix: string := [Warning] + " Could not request permission: "
  const UnsupportedMsg: string := [Warning] + " This device does not support orientation sensors. Open on a mobile phone."

  /** `onStatus(msg)` as the source calls it: only when the callback exists. */
  function StatusIf(h: Handlers, msg: string): seq<Effect> {
    if h.onStatus then [Status(msg)] else []
  }

  /** The platform asks for permission before sensors can be used. */
  predicate NeedsPermission(p: Platform) {
    p.eventDefined && p.requestPermissionIsFunction
  }

  /** The effects after the permission checks have passed: the granted
      callback, if any, and then the listener registration. */
  function Proceed(h: Handlers): seq<Effect> {
    (if h.onPermissionGranted then [PermissionGranted] else []) + [ListenerAdded]
  }

  /** `startCompass(opts)`, from feature detection to the resolved boolean. */
  function StartCompass(p: Platform, h: Handlers): (s: Session)
    ensures s.started <==>
              p.eventDefined && (!p.requestPermissionIsFunction || p.permission == Answered("granted"))
    ensures s.started <==> ListenerAdded in s.effects
  {
    if NeedsPermission(p) then
      var asking := StatusIf(h, RequestingMsg);
      match p.permission
      case Throws(m) => Session(asking + StatusIf(h, CouldNotRequestPrefix + m), false)
      case Answered(res) =>
        if res != "granted" then Session(asking + StatusIf(h, DeniedMsg), false)
        else Session(asking + Proceed(h), true)
    else if !p.eventDefined then
      Session(StatusIf(h, UnsupportedMsg), false)
    else
      Session(Proceed(h), true)
  }

  /** A session that starts ends with the granted callback (when supplied)
      followed by the listener registration, and emits a status message only
      while asking for permission. */
  lemma StartedShape(p: Platform, h: Handlers)
    requires StartCompass(p, h).started
    ensures var e := StartCompass(p, h).effects;
      && |e| >= 1 && e[|e| - 1] == ListenerAdded
      && (PermissionGranted in e <==> h.onPermissionGranted)
      && (h.onPermissionGranted ==> e[|e| - 2] == PermissionGranted)
      && (forall i :: 0 <= i < |e| && e[i].Status? ==> e[i].message == RequestingMsg)
  {
  }

  /** A session that fails installs nothing and calls no granted callback;
      when the caller listens for status, its last message is a warning. */
  lemma FailureShape(p: Platform, h: Handlers)
    requires !StartCompass(p, h).started
    ensures var e := StartCompass(p, h).effects;
      && PermissionGranted !in e
      && ListenerAdded !in e
      && (h.onStatus <==> |e| > 0)
      && (h.onStatus ==> e[|e| - 1].Status? && e[|e| - 1].message[0] == Warning)
  {
  }

  /** With a permission step, "Requesting..." is reported before anything
      else happens; without one, nothing is requested. */
  lemma RequestComesFirst(p: Platform, h: Handlers)
    ensures var e := StartCompass(p, h).effects;
      (NeedsPermission(p) && h.onStatus) <==> (|e| > 0 && e[0] == Status(RequestingMsg))
  {
  }

  /** The three failure messages, one per failure cause. */
  lemma FailureMessages(p: Platform, h: Handlers)
    requires h.onStatus
    ensures var e := StartCompass(p, h).effects;
      && (NeedsPermission(p) && p.permission.Throws? ==>
            e == [Status(RequestingMsg), Status(CouldNotRequestPrefix + p.permission.message)])
      && (NeedsPermission(p) && p.permission.Answered? && p.permission.answer != "granted" ==>
            e == [Status(RequestingMsg), Status(DeniedMsg)])
      && (!p.eventDefined ==> e == [Status(UnsupportedMsg)])
  {
  }

  /** The platform without the event type at all: the unsupported message,
      no listener, and `false`. */
  lemma UnsupportedDevice(h: Handlers, q: bool, perm: Permission)
    ensures StartCompass(Platform(false, q, perm), h)
              == Session(if h.onStatus then [Status(UnsupportedMsg)] else [], false)
  {
  }

  /** The fields of a `deviceorientation` event the handler reads:
      `webkitCompassHeading` (`None` when undefined or null) and `alpha`
      (`None` when null). */
  datatype OrientationEvent = OrientationEvent(webkitCompassHeading: Option<real>, alpha: Option<real>)

  /** The heading the handler derives from one event, if any. */
  function EventHeading(e: OrientationEvent): (r: Option<real>)
    ensures e.webkitCompassHeading.Some? ==> r == e.webkitCompassHeading
    ensures e.webkitCompassHeading.None? && e.alpha.Some? ==> r.Some? && r.value + e.alpha.value == 360.0
    ensures r.None? <==> e.webkitCompassHeading.None? && e.alpha.None?
  {
    if e.webkitCompassHeading.Some? then e.webkitCompassHeading
    else if e.alpha.Some? then Some(360.0 - e.alpha.value)
    else None
  }

  /** Readings within one turn give headings within one turn. */
  lemma EventHeadingInRange(e: OrientationEvent)
    requires e.webkitCompassHeading.Some? ==> 0.0 <= e.webkitCompassHeading.value <= 360.0
    requires e.alpha.Some? ==> 0.0 <= e.alpha.value <= 360.0
    ensures EventHeading(e).Some? ==> 0.0 <= EventHeading(e).value <= 360.0
  {
  }

  /** The headings reported for a stream of events by the installed listener:
      one per event that yields a heading, in arrival order. */
  method CollectHeadings(events: seq<OrientationEvent>) returns (reports: seq<real>)
    ensures |reports| <= |events|
    ensures |reports| == |events| <==> forall i :: 0 <= i < |events| ==> EventHeading(events[i]).Some?
    ensures forall x :: x in reports ==>
              exists i :: 0 <= i < |events| && EventHeading(events[i]) == Some(x)
    ensures reports == Headings(events)
  {
    reports := [];
    for n := 0 to |events|
      invariant reports == Headings(events[..n])
      invariant |reports| <= n
      invariant |reports| == n <==> forall i :: 0 <= i < n ==> EventHeading(events[i]).Some?
      invariant forall x :: x in reports ==>
                  exists i :: 0 <= i < n && EventHeading(events[i]) == Some(x)
    {
      assert events[..n + 1] == events[..n] + [events[n]];
      match EventHeading(events[n])
      case Some(x) => reports := reports + [x];
      case None =>
    }
    assert events[..|events|] == events;
  }

  /** Reference definition of the reported headings, one event at a time
      from the end of the stream. */
  function Headings(events: seq<OrientationEvent>): seq<real> {
    if |events| == 0 then []
    else
      var last := events[|events| - 1];
      Headings(events[..|events| - 1]) + (match EventHeading(last) case Some(x) => [x] case None => [])
  }

  /** Everything the caller's `onHeading` sees over a session: nothing
      unless the session started and the callback was supplied. */
  function SessionReports(p: Platform, h: Handlers, events: seq<OrientationEvent>): (r: seq<real>)
    ensures |r| > 0 ==> StartCompass(p, h).started && h.onHeading
    ensures StartCompass(p, h).started && h.onHeading ==> r == Headings(events)
    ensures StartCompass(p, h).started && h.onHeading ==>
              (|r| == |events| <==> forall i :: 0 <= i < |events| ==> EventHeading(events[i]).Some?)
    ensures |r| <= |events|
  {
    HeadingsBounded(events);
    HeadingsComplete(events);
    if StartCompass(p, h).started && h.onHeading then Headings(events) else []
  }

  /** The listener reports at most once per event. */
  lemma {:induction false} HeadingsBounded(events: seq<OrientationEvent>)
    ensures |Headings(events)| <= |events|
  {
    if |events| > 0 {
      HeadingsBounded(events[..|events| - 1]);
    }
  }

  /** Every event is reported exactly when every event carries a reading. */
  lemma {:induction false} HeadingsComplete(events: seq<OrientationEvent>)
    ensures |Headings(events)| == |events| <==>
              forall i :: 0 <= i < |events| ==> EventHeading(events[i]).Some?
  {
    if |events| > 0 {
      var init := events[..|events| - 1];
      HeadingsComplete(init);
      HeadingsBounded(init);
      assert forall i :: 0 <= i < |init| ==> init[i] == events[i];
    }
  }

  /** Over a stream of in-range readings, every reported heading is within
      one turn. */
  lemma {:induction false} HeadingsInRange(events: seq<OrientationEvent>)
    requires forall i :: 0 <= i < |events| ==>
               (events[i].webkitCompassHeading.Some? ==> 0.0 <= events[i].webkitCompassHeading.value <= 360.0)
               && (events[i].alpha.Some? ==> 0.0 <= events[i].alpha.value <= 360.0)
    ensures forall x :: x in Headings(events) ==> 0.0 <= x <= 360.0
  {
    if |events| > 0 {
      HeadingsInRange(events[..|events| - 1]);
      EventHeadingInRange(events[|events| - 1]);
    }
  }
}
