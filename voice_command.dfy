/**
 * The voice-command component: it obtains microphone permission, initialises the speech
 * recogniser, keeps a recognition session running, and turns each final transcript into
 * an action on the bound scene object (show, hide, paint red, paint blue).
 *
 * The speech service, the platform permission API and the scene object are outside the
 * model. What they answer (is the microphone authorised, did the engine initialise) comes
 * in as parameters; what the component asks of them is appended to the ghost trace `calls`.
 */
module VoiceCommand {
  import opened Text

  // ---------------------------------------------------------------------------------------
  // Command dispatch

  /** What a recognised command does to the bound object; `NoOp` is an unrecognised command. */
  datatype Action = Show | Hide | Red | Blue | NoOp

  /** `ProcessVoiceCommand`'s if/else-if chain of `Contains` tests, checked in the order written. */
  function Classify(command: string): (r: Action)
    ensures r == NoOp <==> forall k :: 0 <= k < |Rules| ==> !ContainsAny(command, Rules[k].words)
  {
    ContainsAnyPair(command, "出现", "显示");
    ContainsAnyPair(command, "隐藏", "消失");
    ContainsAnyOne(command, "红");
    ContainsAnyOne(command, "蓝");
    assert Rules[0].words == ["出现", "显示"] && Rules[1].words == ["隐藏", "消失"];
    assert Rules[2].words == ["红"] && Rules[3].words == ["蓝"];
    if Contains(command, "出现") || Contains(command, "显示") then Show
    else if Contains(command, "隐藏") || Contains(command, "消失") then Hide
    else if Contains(command, "红") then Red
    else if Contains(command, "蓝") then Blue
    else NoOp
  }

  /** Some keyword of `words` occurs in `command`. */
  predicate ContainsAny(command: string, words: seq<string>)
  {
    exists k | 0 <= k < |words| :: Contains(command, words[k])
  }

  /** One dispatch rule: any of its keywords selects its action. */
  datatype Rule = Rule(words: seq<string>, action: Action)

  /** The dispatch rules, highest priority first. */
  const Rules: seq<Rule> := [
    Rule(["出现", "显示"], Show),
    Rule(["隐藏", "消失"], Hide),
    Rule(["红"], Red),
    Rule(["蓝"], Blue)
  ]

  /** Reference semantics of an ordered rule list: the first rule with a matching keyword wins. */
  function FirstMatch(rules: seq<Rule>, command: string): Action
  {
    if rules == [] then NoOp
    else if ContainsAny(command, rules[0].words) then rules[0].action
    else FirstMatch(rules[1..], command)
  }

  /** Rule `j` matches and no earlier rule does. */
  predicate FirstMatchingRule(rules: seq<Rule>, command: string, j: int)
  {
    0 <= j < |rules| && ContainsAny(command, rules[j].words)
    && forall k :: 0 <= k < j ==> !ContainsAny(command, rules[k].words)
  }

  /**
   * First match wins, whatever the rules: the result is the action of the first matching rule,
   * and `NoOp` exactly when no rule matches.
   */
  lemma {:induction false} FirstMatchWins(rules: seq<Rule>, command: string, j: int)
    requires FirstMatchingRule(rules, command, j)
    ensures FirstMatch(rules, command) == rules[j].action
  {
    if j > 0 {
      assert !ContainsAny(command, rules[0].words);
      assert FirstMatchingRule(rules[1..], command, j - 1) by {
        forall k | 0 <= k < j - 1
          ensures !ContainsAny(command, rules[1..][k].words)
        {
          assert rules[1..][k] == rules[k + 1];
        }
      }
      FirstMatchWins(rules[1..], command, j - 1);
    }
  }

  lemma {:induction false} FirstMatchNone(rules: seq<Rule>, command: string)
    requires forall k :: 0 <= k < |rules| ==> !ContainsAny(command, rules[k].words)
    ensures FirstMatch(rules, command) == NoOp
  {
    if rules != [] {
      assert !ContainsAny(command, rules[0].words);
      assert forall k :: 0 <= k < |rules| - 1 ==> rules[1..][k] == rules[k + 1];
      FirstMatchNone(rules[1..], command);
    }
  }

  lemma ContainsAnyPair(command: string, a: string, b: string)
    ensures ContainsAny(command, [a, b]) <==> Contains(command, a) || Contains(command, b)
  {
    if Contains(command, a) { assert [a, b][0] == a; }
    if Contains(command, b) { assert [a, b][1] == b; }
  }

  lemma ContainsAnyOne(command: string, a: string)
    ensures ContainsAny(command, [a]) <==> Contains(command, a)
  {
    if Contains(command, a) { assert [a][0] == a; }
  }

  /** The dispatcher is the rule table read first-match-wins. */
  lemma ClassifyIsFirstMatch(command: string)
    ensures Classify(command) == FirstMatch(Rules, command)
  {
    ContainsAnyPair(command, "出现", "显示");
    ContainsAnyPair(command, "隐藏", "消失");
    ContainsAnyOne(command, "红");
    ContainsAnyOne(command, "蓝");
    var m0 := ContainsAny(command, Rules[0].words);
    var m1 := ContainsAny(command, Rules[1].words);
    var m2 := ContainsAny(command, Rules[2].words);
    var m3 := ContainsAny(command, Rules[3].words);
    if m0 {
      FirstMatchWins(Rules, command, 0);
    } else if m1 {
      FirstMatchWins(Rules, command, 1);
    } else if m2 {
      FirstMatchWins(Rules, command, 2);
    } else if m3 {
      FirstMatchWins(Rules, command, 3);
    } else {
      FirstMatchNone(Rules, command);
    }
  }

  /** Overlapping keywords go by rule order, not by the later keyword; unknown words are no-ops. */
  lemma ClassifyExamples()
    ensures Contains("显示红色", "红") && Classify("显示红色") == Show
    ensures Classify("隐藏") == Hide
    ensures Classify("蓝") == Blue
    ensures Classify("xyz") == NoOp
  {
    assert OccursAt("显示红色", "显示", 0);
    assert OccursAt("显示红色", "红", 2);
    assert OccursAt("隐藏", "隐藏", 0);
    assert OccursAt("蓝", "蓝", 0);
    var words := ["出现", "显示", "隐藏", "消失", "红", "蓝"];
    forall w | w in words
      ensures !Contains("xyz", w)
    {
      if Contains("xyz", w) {
        ContainsFirstChar("xyz", w);
      }
    }
    assert !Contains("蓝", "出现") && !Contains("蓝", "显示");
    assert !Contains("隐藏", "出现") && !Contains("隐藏", "显示");
    assert !Contains("蓝", "隐藏") && !Contains("蓝", "消失") && !Contains("蓝", "红");
  }

  // ---------------------------------------------------------------------------------------
  // Normalisation: `Text.Trim().ToLower()`

  /** `char.IsWhiteSpace`: the Unicode space, line and paragraph separators and the controls it accepts. */
  predicate IsWhiteSpace(c: char): (b: bool)
    ensures c == ' ' || c == '\t' || c == '\n' || c == '\r' ==> b
    ensures b ==> !IsAsciiLetter(c)
  {
    var n := c as int;
    (0x09 <= n <= 0x0D) || n == 0x20 || n == 0x85 || n == 0xA0 || n == 0x1680
    || (0x2000 <= n <= 0x200A) || n == 0x2028 || n == 0x2029 || n == 0x202F
    || n == 0x205F || n == 0x3000
  }

  predicate AllWhiteSpace(s: string)
  {
    forall i :: 0 <= i < |s| ==> IsWhiteSpace(s[i])
  }

  /** `TrimStart`: the longest suffix that does not start with white space. */
  function TrimStart(s: string): (r: string)
    ensures |r| <= |s| && r == s[|s| - |r|..]
    ensures AllWhiteSpace(s[..|s| - |r|])
    ensures r == [] || !IsWhiteSpace(r[0])
  {
    if s != [] && IsWhiteSpace(s[0]) then
      var r := TrimStart(s[1..]);
      assert s[..|s| - |r|] == [s[0]] + s[1..][..|s| - 1 - |r|];
      r
    else s
  }

  /** `TrimEnd`: the longest prefix that does not end with white space. */
  function TrimEnd(s: string): (r: string)
    ensures |r| <= |s| && r == s[..|r|]
    ensures AllWhiteSpace(s[|r|..])
    ensures r == [] || !IsWhiteSpace(r[|r| - 1])
  {
    if s != [] && IsWhiteSpace(s[|s| - 1]) then
      var r := TrimEnd(s[..|s| - 1]);
      assert s[|r|..] == s[..|s| - 1][|r|..] + [s[|s| - 1]];
      r
    else s
  }

  /** `r` is the part of `s` from `lo` on, with nothing but white space around it. */
  predicate TrimmedAt(s: string, r: string, lo: int)
  {
    0 <= lo <= |s| - |r| && s[lo..lo + |r|] == r
    && AllWhiteSpace(s[..lo]) && AllWhiteSpace(s[lo + |r|..])
  }

  /** A string of white space holds no character that is not white space. */
  lemma WhiteSpaceExcludes(d: string, c: char)
    requires AllWhiteSpace(d) && !IsWhiteSpace(c)
    ensures c !in d
  {
  }

  /** `TrimEnd(TrimStart(s))` starts and ends with a character that is not white space. */
  lemma TrimStartEndEnds(s: string, t: string, r: string)
    requires t == TrimStart(s) && r == TrimEnd(t)
    ensures r == [] || (!IsWhiteSpace(r[0]) && !IsWhiteSpace(r[|r| - 1]))
    ensures AllWhiteSpace(s) ==> r == []
  {
    if r != [] {
      assert r[0] == t[0];
      assert t[0] == s[|s| - |t|];
    }
  }

  /** Dropping leading white space and then trailing white space leaves an infix with white space around it. */
  lemma TrimmedInfix(s: string, t: string, r: string)
    requires |t| <= |s| && t == s[|s| - |t|..] && AllWhiteSpace(s[..|s| - |t|])
    requires |r| <= |t| && r == t[..|r|] && AllWhiteSpace(t[|r|..])
    ensures TrimmedAt(s, r, |s| - |t|)
  {
    var lo := |s| - |t|;
    assert r == s[lo..lo + |r|];
    assert t[|r|..] == s[lo + |r|..];
  }

  /** `Trim`: white space removed at both ends, and only there. */
  function Trim(s: string): (r: string)
    ensures |r| <= |s|
    ensures r == [] || (!IsWhiteSpace(r[0]) && !IsWhiteSpace(r[|r| - 1]))
    ensures AllWhiteSpace(s) ==> r == []
    ensures exists lo :: TrimmedAt(s, r, lo)
  {
    var t := TrimStart(s);
    var r := TrimEnd(t);
    TrimStartEndEnds(s, t, r);
    TrimmedInfix(s, t, r);
    r
  }

  predicate IsAsciiUpper(c: char)
  {
    'A' <= c <= 'Z'
  }

  predicate IsAsciiLetter(c: char)
  {
    IsAsciiUpper(c) || 'a' <= c <= 'z'
  }

  /** `ToLower` on one character; only the ASCII letters A-Z are mapped. */
  function LowerChar(c: char): (r: char)
    ensures !IsAsciiUpper(r)
    ensures IsAsciiUpper(c) ==> r as int == c as int + 32 && IsAsciiLetter(r)
    ensures !IsAsciiUpper(c) ==> r == c
    ensures IsWhiteSpace(r) <==> IsWhiteSpace(c)
  {
    if IsAsciiUpper(c) then (c as int + 32) as char else c
  }

  /** `ToLower`, ASCII letters only. */
  function ToLower(s: string): (r: string)
    ensures |r| == |s|
    ensures forall i :: 0 <= i < |r| ==> !IsAsciiUpper(r[i])
    ensures forall i :: 0 <= i < |s| && !IsAsciiUpper(s[i]) ==> r[i] == s[i]
    ensures forall i :: 0 <= i < |s| && IsAsciiUpper(s[i]) ==> r[i] as int == s[i] as int + 32
  {
    seq(|s|, i requires 0 <= i < |s| => LowerChar(s[i]))
  }

  /** The text `HandleAsrResult` hands to the dispatcher. */
  function Normalize(text: string): (r: string)
    ensures |r| <= |text|
    ensures r == [] || (!IsWhiteSpace(r[0]) && !IsWhiteSpace(r[|r| - 1]))
    ensures forall i :: 0 <= i < |r| ==> !IsAsciiUpper(r[i])
  {
    ToLower(Trim(text))
  }

  /** A keyword the normalisation cannot disturb: it is non-empty, has no ASCII letter and no white space at either end. */
  predicate PlainKeyword(k: string)
  {
    |k| > 0 && !IsWhiteSpace(k[0]) && !IsWhiteSpace(k[|k| - 1])
    && forall j :: 0 <= j < |k| ==> !IsAsciiLetter(k[j])
  }

  /** Leading white space never holds a keyword that does not start with white space. */
  lemma ContainsTrimStart(s: string, k: string)
    requires |k| > 0 && !IsWhiteSpace(k[0])
    ensures Contains(TrimStart(s), k) <==> Contains(s, k)
  {
    var t := TrimStart(s);
    var d := s[..|s| - |t|];
    assert s == d + t;
    WhiteSpaceExcludes(d, k[0]);
    ContainsDropPrefix(d, t, k);
  }

  /** Trailing white space never holds a keyword that does not end with white space. */
  lemma ContainsTrimEnd(t: string, k: string)
    requires |k| > 0 && !IsWhiteSpace(k[|k| - 1])
    ensures Contains(TrimEnd(t), k) <==> Contains(t, k)
  {
    var r := TrimEnd(t);
    var e := t[|r|..];
    assert t == r + e;
    WhiteSpaceExcludes(e, k[|k| - 1]);
    ContainsDropSuffix(r, e, k);
  }

  /** Trimming neither creates nor destroys an occurrence of a keyword with no white space at its ends. */
  lemma ContainsTrim(s: string, k: string)
    requires |k| > 0 && !IsWhiteSpace(k[0]) && !IsWhiteSpace(k[|k| - 1])
    ensures Contains(Trim(s), k) <==> Contains(s, k)
  {
    ContainsTrimStart(s, k);
    ContainsTrimEnd(TrimStart(s), k);
  }

  /** Lower-casing neither creates nor destroys an occurrence of a keyword without ASCII letters. */
  lemma ContainsToLower(s: string, k: string)
    requires forall j :: 0 <= j < |k| ==> !IsAsciiLetter(k[j])
    ensures Contains(ToLower(s), k) <==> Contains(s, k)
  {
    var t := ToLower(s);
    forall i | 0 <= i <= |s| - |k|
      ensures OccursAt(t, k, i) <==> OccursAt(s, k, i)
    {
      assert forall j :: 0 <= j < |k| ==> (t[i + j] == k[j] <==> s[i + j] == k[j]);
      if OccursAt(t, k, i) {
        forall j | 0 <= j < |k| ensures s[i + j] == k[j] {
          OccurrenceChar(t, k, i, j);
        }
        assert s[i..i + |k|] == k;
      }
      if OccursAt(s, k, i) {
        forall j | 0 <= j < |k| ensures t[i + j] == k[j] {
          OccurrenceChar(s, k, i, j);
        }
        assert t[i..i + |k|] == k;
      }
    }
  }

  lemma ContainsNormalized(s: string, k: string)
    requires PlainKeyword(k)
    ensures Contains(Normalize(s), k) <==> Contains(s, k)
  {
    ContainsToLower(Trim(s), k);
    ContainsTrim(s, k);
  }

  /** Trimming and lower-casing a transcript never change the action it selects. */
  lemma ClassifyIgnoresNormalization(text: string)
    ensures Classify(Normalize(text)) == Classify(text)
  {
    assert PlainKeyword("出现") && PlainKeyword("显示") && PlainKeyword("隐藏");
    assert PlainKeyword("消失") && PlainKeyword("红") && PlainKeyword("蓝");
    ContainsNormalized(text, "出现");
    ContainsNormalized(text, "显示");
    ContainsNormalized(text, "隐藏");
    ContainsNormalized(text, "消失");
    ContainsNormalized(text, "红");
    ContainsNormalized(text, "蓝");
  }

  // ---------------------------------------------------------------------------------------
  // What the component asks of its collaborators

  /** What a callback slot of the speech service holds: nothing, or this component's handler. */
  datatype Slot = Cleared | Handler

  datatype Color = RedColor | BlueColor

  datatype Call =
    | SetResultCallback(slot: Slot)       // SpeechService.SetOnAsrResultCallback
    | SetErrorCallback(slot: Slot)        // SpeechService.SetOnSpeechErrorCallback
    | InitAsrEngine                       // SpeechService.InitAsrEngine
    | StartAsr(autoStop: bool, showPunctual: bool, maxDuration: int)
    | StopAsr
    | RequestUserPermission               // Permission.RequestUserPermission(Microphone)
    | SetActive(visible: bool)            // interactiveObject.SetActive
    | SetColor(color: Color)              // renderer.material.color

  /** The handler in the speech service's result slot after `t`; nothing is registered at first. */
  function ResultSlot(t: seq<Call>): Slot
  {
    if t == [] then Cleared
    else if t[|t| - 1].SetResultCallback? then t[|t| - 1].slot
    else ResultSlot(t[..|t| - 1])
  }

  function ErrorSlot(t: seq<Call>): Slot
  {
    if t == [] then Cleared
    else if t[|t| - 1].SetErrorCallback? then t[|t| - 1].slot
    else ErrorSlot(t[..|t| - 1])
  }

  predicate RegistersResult(u: seq<Call>)
  {
    exists k :: 0 <= k < |u| && u[k].SetResultCallback?
  }

  predicate RegistersError(u: seq<Call>)
  {
    exists k :: 0 <= k < |u| && u[k].SetErrorCallback?
  }

  /** Each slot holds what was last registered in it: calls that register nothing leave it alone. */
  lemma {:induction false} SlotsOfAppend(t: seq<Call>, u: seq<Call>)
    ensures ResultSlot(t + u) == if RegistersResult(u) then ResultSlot(u) else ResultSlot(t)
    ensures ErrorSlot(t + u) == if RegistersError(u) then ErrorSlot(u) else ErrorSlot(t)
    decreases |u|
  {
    if u == [] {
      assert t + u == t;
    } else {
      var v := u[..|u| - 1];
      var c := u[|u| - 1];
      SlotsOfAppend(t, v);
      assert (t + u)[..|t + u| - 1] == t + v;
      assert (t + u)[|t + u| - 1] == c;
      assert RegistersResult(u) <==> RegistersResult(v) || c.SetResultCallback? by {
        assert forall k :: 0 <= k < |v| ==> v[k] == u[k];
      }
      assert RegistersError(u) <==> RegistersError(v) || c.SetErrorCallback? by {
        assert forall k :: 0 <= k < |v| ==> v[k] == u[k];
      }
    }
  }

  // ---------------------------------------------------------------------------------------
  // The component

  /** A message delivered to the result callback. */
  datatype AsrMessage =
    | AsrError(message: string)
    | AsrData(text: string, isFinal: bool)   // a null text is modelled as ""

  class VoiceCommandHandler {
    /** Built for Android (`PLATFORM_ANDROID`): permission must be requested at run time. */
    const isAndroid: bool
    /** `interactiveObject != null`, and whether that object has a `Renderer`. */
    const hasTarget: bool
    const hasRenderer: bool
    const autoStop: bool
    const maxDuration: int

    var isAsrConfigured: bool
    var permissionRequested: bool
    /** `isActiveAndEnabled`: set while enabled, cleared by `OnDisable`. */
    var isActiveAndEnabled: bool
    /** Started `CheckPermissionAfterRequest` coroutines that have not finished yet. */
    var pendingPermissionChecks: nat
    /** Every call made on the speech service, the permission API and the bound object, in order. */
    ghost var calls: seq<Call>

    ghost predicate Valid()
      reads this
    {
      && (permissionRequested <==> RequestUserPermission in calls)
      && (permissionRequested ==> isAndroid)
      && (pendingPermissionChecks > 0 ==> permissionRequested)
      && (isAsrConfigured ==> InitAsrEngine in calls)
      && (isAsrConfigured && isActiveAndEnabled ==> ResultSlot(calls) == Handler && ErrorSlot(calls) == Handler)
    }

    /** The `StartAsr` call this component makes. */
    function StartCall(): Call
    {
      StartAsr(autoStop, true, maxDuration)
    }

    /** The calls of `InitializeAndStartAsrSystem` from a state with `isAsrConfigured == configured`. */
    function InitCalls(configured: bool, initSucceeds: bool): seq<Call>
    {
      if configured then []
      else [SetResultCallback(Handler), SetErrorCallback(Handler), InitAsrEngine]
           + (if initSucceeds then [StartCall()] else [])
    }

    /** The calls made on the bound object for an action. */
    function ActionCalls(a: Action): seq<Call>
    {
      match a
      case Show => [SetActive(true)]
      case Hide => [SetActive(false)]
      case Red => if hasRenderer then [SetColor(RedColor)] else []
      case Blue => if hasRenderer then [SetColor(BlueColor)] else []
      case NoOp => []
    }

    /** The calls of `ProcessVoiceCommand(command)`. */
    function CommandCalls(command: string): seq<Call>
    {
      if hasTarget then ActionCalls(Classify(command)) else []
    }

    /** The component once created and enabled; its first `OnEnable` finds nothing configured. */
    constructor (isAndroid: bool, hasTarget: bool, hasRenderer: bool, autoStop: bool, maxDuration: int)
      ensures Valid()
      ensures this.isAndroid == isAndroid && this.hasTarget == hasTarget && this.hasRenderer == hasRenderer
      ensures this.autoStop == autoStop && this.maxDuration == maxDuration
      ensures !isAsrConfigured && !permissionRequested && isActiveAndEnabled
      ensures pendingPermissionChecks == 0 && calls == []
    {
      this.isAndroid, this.hasTarget, this.hasRenderer := isAndroid, hasTarget, hasRenderer;
      this.autoStop, this.maxDuration := autoStop, maxDuration;
      isAsrConfigured, permissionRequested, isActiveAndEnabled := false, false, true;
      pendingPermissionChecks := 0;
      calls := [];
    }

    /** One call on a collaborator, appended to the trace. */
    ghost method Record(c: Call)
      modifies this`calls
      ensures calls == old(calls) + [c]
      ensures ResultSlot(calls) == if c.SetResultCallback? then c.slot else ResultSlot(old(calls))
      ensures ErrorSlot(calls) == if c.SetErrorCallback? then c.slot else ErrorSlot(old(calls))
    {
      SlotsOfAppend(calls, [c]);
      assert [c][0] == c;
      calls := calls + [c];
    }

    /** `Start`: the first permission check. */
    method Start(micAuthorised: bool, initSucceeds: bool)
      requires Valid()
      modifies this
      ensures Valid()
      ensures !isAndroid || micAuthorised ==>
        && calls == old(calls) + InitCalls(old(isAsrConfigured), initSucceeds)
        && isAsrConfigured == (old(isAsrConfigured) || initSucceeds)
        && pendingPermissionChecks == old(pendingPermissionChecks)
      ensures isAndroid && !micAuthorised ==>
        && calls == old(calls) + [RequestUserPermission]
        && permissionRequested && isAsrConfigured == old(isAsrConfigured)
        && pendingPermissionChecks == old(pendingPermissionChecks) + 1
      ensures isActiveAndEnabled == old(isActiveAndEnabled)
    {
      RequestMicrophonePermission(micAuthorised, initSucceeds);
    }

    /**
     * `RequestMicrophonePermission`: an authorised microphone (or a platform without run-time
     * permissions) goes straight to initialisation; otherwise the permission is requested and
     * a check is scheduled for when the dialog closes.
     */
    method RequestMicrophonePermission(micAuthorised: bool, initSucceeds: bool)
      requires Valid()
      modifies this
      ensures Valid()
      ensures !isAndroid || micAuthorised ==>
        && calls == old(calls) + InitCalls(old(isAsrConfigured), initSucceeds)
        && isAsrConfigured == (old(isAsrConfigured) || initSucceeds)
        && permissionRequested == old(permissionRequested)
        && pendingPermissionChecks == old(pendingPermissionChecks)
      ensures isAndroid && !micAuthorised ==>
        && calls == old(calls) + [RequestUserPermission]
        && permissionRequested && isAsrConfigured == old(isAsrConfigured)
        && pendingPermissionChecks == old(pendingPermissionChecks) + 1
      ensures isActiveAndEnabled == old(isActiveAndEnabled)
    {
      if isAndroid && !micAuthorised {
        Record(RequestUserPermission);
        pendingPermissionChecks := pendingPermissionChecks + 1;
        permissionRequested := true;
      } else {
        InitializeAndStartAsrSystem(initSucceeds);
      }
    }

    /**
     * `CheckPermissionAfterRequest`, once the permission dialog has closed: initialise if the
     * microphone is now authorised, otherwise make no call at all.
     */
    method CheckPermissionAfterRequest(micAuthorised: bool, initSucceeds: bool)
      requires Valid() && pendingPermissionChecks > 0
      modifies this
      ensures Valid()
      ensures pendingPermissionChecks == old(pendingPermissionChecks) - 1
      ensures micAuthorised ==>
        && calls == old(calls) + InitCalls(old(isAsrConfigured), initSucceeds)
        && isAsrConfigured == (old(isAsrConfigured) || initSucceeds)
      ensures !micAuthorised ==> calls == old(calls) && isAsrConfigured == old(isAsrConfigured)
      ensures permissionRequested == old(permissionRequested)
      ensures isActiveAndEnabled == old(isActiveAndEnabled)
    {
      pendingPermissionChecks := pendingPermissionChecks - 1;
      if micAuthorised {
        InitializeAndStartAsrSystem(initSucceeds);
      }
    }

    /**
     * `InitializeAndStartAsrSystem`: does nothing once configured; otherwise registers both
     * callbacks, initialises the engine and, only if that succeeded, becomes configured and
     * starts one session. A failed initialisation is not retried within the call.
     */
    method InitializeAndStartAsrSystem(initSucceeds: bool)
      requires Valid()
      modifies this
      ensures Valid()
      ensures old(isAsrConfigured) ==> isAsrConfigured
      ensures !old(isAsrConfigured) ==> isAsrConfigured == initSucceeds
      ensures calls == old(calls) + InitCalls(old(isAsrConfigured), initSucceeds)
      ensures permissionRequested == old(permissionRequested)
      ensures pendingPermissionChecks == old(pendingPermissionChecks)
      ensures isActiveAndEnabled == old(isActiveAndEnabled)
    {
      if isAsrConfigured {
        return;
      }
      Record(SetResultCallback(Handler));
      Record(SetErrorCallback(Handler));
      Record(InitAsrEngine);
      if initSucceeds {
        isAsrConfigured := true;
        StartAsrService();
      }
    }

    /** `StartAsrService`: one session is started, configured or not. */
    method StartAsrService()
      requires Valid()
      modifies this`calls
      ensures Valid()
      ensures calls == old(calls) + [StartCall()]
    {
      Record(StartCall());
    }

    /** `StopAsrService`: the session is stopped only when the engine is configured. */
    method StopAsrService()
      requires Valid()
      modifies this`calls
      ensures Valid()
      ensures calls == old(calls) + (if isAsrConfigured then [StopAsr] else [])
    {
      if isAsrConfigured {
        Record(StopAsr);
      }
    }

    /**
     * `HandleAsrResult`: ignored while inactive, and for error messages, partial results and
     * empty finals; a non-empty final transcript is normalised and dispatched, and with
     * `autoStop` one new session is started.
     */
    method HandleAsrResult(msg: AsrMessage)
      requires Valid()
      modifies this`calls
      ensures Valid()
      ensures !isActiveAndEnabled || msg.AsrError? || !msg.isFinal || msg.text == [] ==> calls == old(calls)
      ensures isActiveAndEnabled && msg.AsrData? && msg.isFinal && msg.text != [] ==>
        calls == old(calls) + CommandCalls(Normalize(msg.text)) + (if autoStop then [StartCall()] else [])
    {
      if !isActiveAndEnabled {
        return;
      }
      if msg.AsrError? {
        return;
      }
      if msg.isFinal && msg.text != [] {
        var command := Normalize(msg.text);
        ProcessVoiceCommand(command);
        if autoStop {
          StartAsrService();
        }
      }
    }

    /**
     * `HandleSpeechError`: code -402 (permission lost) drops the configuration and goes back
     * through the permission check; code 1014 (no speech) and every other code stop and
     * restart the session.
     */
    method HandleSpeechError(code: int, micAuthorised: bool, initSucceeds: bool)
      requires Valid()
      modifies this
      ensures Valid()
      ensures code == -402 && (!isAndroid || micAuthorised) ==>
        && calls == old(calls) + InitCalls(false, initSucceeds)
        && isAsrConfigured == initSucceeds
        && pendingPermissionChecks == old(pendingPermissionChecks)
        && permissionRequested == old(permissionRequested)
      ensures code == -402 && isAndroid && !micAuthorised ==>
        && calls == old(calls) + [RequestUserPermission]
        && !isAsrConfigured && permissionRequested
        && pendingPermissionChecks == old(pendingPermissionChecks) + 1
      ensures code != -402 ==>
        && calls == old(calls) + (if old(isAsrConfigured) then [StopAsr] else []) + [StartCall()]
        && isAsrConfigured == old(isAsrConfigured)
        && pendingPermissionChecks == old(pendingPermissionChecks)
      ensures isActiveAndEnabled == old(isActiveAndEnabled)
    {
      if code == -402 {
        isAsrConfigured := false;
        RequestMicrophonePermission(micAuthorised, initSucceeds);
      } else if code == 1014 {
        StopAsrService();
        StartAsrService();
      } else {
        StopAsrService();
        StartAsrService();
      }
    }

    /** `ProcessVoiceCommand`: without a bound object nothing happens; otherwise the action's calls. */
    method ProcessVoiceCommand(command: string)
      requires Valid()
      modifies this`calls
      ensures Valid()
      ensures calls == old(calls) + CommandCalls(command)
      ensures !hasTarget ==> calls == old(calls)
    {
      if !hasTarget {
        return;
      }
      match Classify(command)
      case Show => Record(SetActive(true));
      case Hide => Record(SetActive(false));
      case Red => SetObjectColor(RedColor);
      case Blue => SetObjectColor(BlueColor);
      case NoOp =>
    }

    /** `SetObjectColor`: paints the object when it has a renderer. */
    method SetObjectColor(color: Color)
      requires Valid()
      modifies this`calls
      ensures Valid()
      ensures calls == old(calls) + (if hasRenderer then [SetColor(color)] else [])
    {
      if hasRenderer {
        Record(SetColor(color));
      }
    }

    /** `OnEnable`: a configured component registers both callbacks again and starts a session. */
    method OnEnable()
      requires Valid()
      modifies this
      ensures Valid()
      ensures isActiveAndEnabled
      ensures isAsrConfigured ==>
        calls == old(calls) + [SetResultCallback(Handler), SetErrorCallback(Handler), StartCall()]
      ensures !isAsrConfigured ==> calls == old(calls)
      ensures isAsrConfigured == old(isAsrConfigured) && permissionRequested == old(permissionRequested)
      ensures pendingPermissionChecks == old(pendingPermissionChecks)
    {
      isActiveAndEnabled := true;
      if isAsrConfigured {
        Record(SetResultCallback(Handler));
        Record(SetErrorCallback(Handler));
        StartAsrService();
      }
    }

    /** `OnDisable`: both callback slots are cleared first, then the session is stopped. */
    method OnDisable()
      requires Valid()
      modifies this
      ensures Valid()
      ensures !isActiveAndEnabled
      ensures calls == old(calls) + [SetResultCallback(Cleared), SetErrorCallback(Cleared)]
                       + (if isAsrConfigured then [StopAsr] else [])
      ensures ResultSlot(calls) == Cleared && ErrorSlot(calls) == Cleared
      ensures isAsrConfigured == old(isAsrConfigured) && permissionRequested == old(permissionRequested)
      ensures pendingPermissionChecks == old(pendingPermissionChecks)
    {
      isActiveAndEnabled := false;
      Record(SetResultCallback(Cleared));
      Record(SetErrorCallback(Cleared));
      StopAsrService();
    }

    /** `OnDestroy`: only stops the session. */
    method OnDestroy()
      requires Valid()
      modifies this`calls
      ensures Valid()
      ensures calls == old(calls) + (if isAsrConfigured then [StopAsr] else [])
    {
      StopAsrService();
    }
  }

  // ---------------------------------------------------------------------------------------
  // Scenarios a caller can prove from the contracts alone

  /** Two failed initialisations in a row never start a session. */
  method InitFailsTwice()
  {
    var h := new VoiceCommandHandler(false, true, true, true, 60000);
    h.Start(true, false);
    h.HandleSpeechError(-402, true, false);
    assert !h.isAsrConfigured;
    assert forall k :: 0 <= k < |h.calls| ==> !h.calls[k].StartAsr?;
  }

  /** After `OnDisable` no result callback is registered, and a late result does nothing. */
  method LateResultAfterDisable()
  {
    var h := new VoiceCommandHandler(true, true, true, true, 60000);
    h.Start(true, true);
    assert h.isAsrConfigured;
    h.OnDisable();
    var before := h.calls;
    h.HandleAsrResult(AsrData("显示", true));
    assert h.calls == before && ResultSlot(h.calls) == Cleared;
  }
}
