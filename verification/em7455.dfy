/** `EM7455`: the Sierra Wireless EM7455 commands built on the AT device —
    enabling the engineering command set, reading the USB settings, the
    challenge/response unlock, and the IMEI repair sequence. The key
    generator of `sierrakeygen` is a parameter `solve`, called as
    `solve(device class, challenge, variant)`. */
module EM7455 {
  import opened Results
  import opened Text
  import opened Codec
  import opened Imei
  import opened Device

  /** The device class the key generator is asked for. */
  const DeviceClass := "MDM9x30"

  /** `!ENTERCND="A710"`: the password of the engineering command set. */
  const EnterCndBody := "!ENTERCND=\"A710\""

  /** The settings GetUSBInfo reads, in order. */
  const UsbQueries := ["!USBVID", "!USBPID", "!USBPRODUCT", "!PRIID"]

  /** The READ requests for a list of settings. */
  function ReadFrames(queries: seq<string>): (r: seq<string>)
    ensures |r| == |queries|
  {
    if queries == [] then [] else [Frame(queries[0] + "?")] + ReadFrames(queries[1..])
  }

  /** The requests of a complete GetUSBInfo. */
  function UsbPlan(): (r: seq<string>)
    ensures |r| == 5
  {
    [Frame(EnterCndBody)] + ReadFrames(UsbQueries)
  }

  /** Writing the next request of a plan extends the written prefix by one. */
  lemma PrefixStep(before: seq<string>, plan: seq<string>, k: nat)
    requires k < |plan|
    ensures before + plan[..k] + [plan[k]] == before + plan[..k + 1]
  {
    assert plan[..k + 1] == plan[..k] + [plan[k]];
  }

  /** The body EnableAdvCmds hands to CMD is the quoted password. */
  lemma EnterCndRequest()
    ensures RequestBody("!ENTERCND", Mode.Exec, [Str("A710")]) == Ok(EnterCndBody)
  {
    SingleStringArg("A710");
    assert "!ENTERCND" + "=" + ("\"" + "A710" + "\"") == EnterCndBody;
  }

  /** The body OpenLock submits: the token as a quoted string argument. */
  function UnlockBody(token: string): string
  {
    "!OPENLOCK=\"" + token + "\""
  }

  lemma UnlockRequest(token: string)
    ensures RequestBody("!OPENLOCK", Mode.Exec, [Str(token)]) == Ok(UnlockBody(token))
  {
    SingleStringArg(token);
    assert "!OPENLOCK" + "=" + ("\"" + token + "\"") == UnlockBody(token);
  }

  /** The token OpenLock computes from a `!OPENLOCK?` answer: the key
      generator applied to its first line. */
  function Token(solve: (string, string, int) -> string, challenge: Result<seq<string>>): string
  {
    if challenge.Ok? && challenge.value != [] then solve(DeviceClass, challenge.value[0], 0) else ""
  }

  /** The body of `!NVENCRYPTIMEI` for an IMEI. */
  function EncryptBody(imei: string): string
  {
    "!NVENCRYPTIMEI=" + EncryptArg(imei)
  }

  /** `EM7455.EnableAdvCmds()`: one `!ENTERCND` request; its answer only
      matters through the error CMD may raise. */
  method EnableAdvCmds(dev: ATDevice) returns (r: Result<()>)
    requires dev.Valid()
    modifies dev`sent
    ensures dev.isOpen ==> dev.sent == old(dev.sent) + [Frame(EnterCndBody)]
                           && r == Status(dev.Answer(|old(dev.sent)|))
    ensures !dev.isOpen ==> dev.sent == old(dev.sent) && r == Err(PortNotOpen)
  {
    EnterCndRequest();
    var res := dev.Exec("!ENTERCND", [Str("A710")]);
    r := Status(res);
  }

  /** The first of the requests `lo`, ..., `hi - 1` whose CMD raised, or
      `hi` when all of them were answered. */
  ghost function FirstFailure(dev: ATDevice, lo: nat, hi: nat): (f: nat)
    requires lo <= hi
    ensures lo <= f <= hi
    ensures f < hi ==> dev.Answer(f).Err?
    decreases hi - lo
  {
    if lo == hi then hi else if dev.Answer(lo).Err? then lo else FirstFailure(dev, lo + 1, hi)
  }

  /** Every request before the first failure was answered. */
  lemma {:induction false} FirstFailureAnswered(dev: ATDevice, lo: nat, hi: nat)
    requires lo <= hi
    ensures forall j :: lo <= j < FirstFailure(dev, lo, hi) ==> dev.Answer(j).Ok?
    decreases hi - lo
  {
    if lo < hi && dev.Answer(lo).Ok? {
      FirstFailureAnswered(dev, lo + 1, hi);
    }
  }

  /** The lines GetUSBInfo has gathered after `count` of its reads, when
      its first request was the n-th: the answers, one after the other. */
  ghost function Gathered(dev: ATDevice, n: nat, count: nat): seq<string>
  {
    if count == 0 then []
    else
      Gathered(dev, n, count - 1)
      + (match dev.Answer(n + count) case Ok(lines) => lines case Err(_) => [])
  }

  /** What GetUSBInfo returns when its first request is the n-th: the first
      error raised, or the four READ answers concatenated in order. */
  ghost function UsbResult(dev: ATDevice, n: nat): Result<seq<string>>
  {
    var f := FirstFailure(dev, n, n + |UsbPlan()|);
    if f < n + |UsbPlan()| then Err(dev.Answer(f).error) else Ok(Gathered(dev, n, |UsbQueries|))
  }

  /** How many requests a call writes that stops at the first failure among
      `steps` steps, the first failure being step `f`. */
  function Written(f: nat, steps: nat): nat
  {
    if f < steps then f + 1 else steps
  }

  /** `EM7455.GetUSBInfo()`: `!ENTERCND`, then READ of each USB setting in
      turn, stopping at the first request that raises. */
  method GetUSBInfo(dev: ATDevice) returns (r: Result<seq<string>>)
    requires dev.Valid()
    modifies dev`sent
    ensures !dev.isOpen ==> dev.sent == old(dev.sent) && r == Err(PortNotOpen)
    ensures dev.isOpen ==>
      var n := |old(dev.sent)|;
      dev.sent == old(dev.sent) + UsbPlan()[..Written(FirstFailure(dev, n, n + 5) - n, 5)]
      && r == UsbResult(dev, n)
  {
    ghost var n := |dev.sent|;
    var enabled := EnableAdvCmds(dev);
    if enabled.Err? {
      return Err(enabled.error);
    }
    assert FirstFailure(dev, n, n + 5) == FirstFailure(dev, n + 1, n + 5);
    var usbinfo: seq<string> := [];
    for i := 0 to |UsbQueries|
      invariant dev.isOpen
      invariant |dev.sent| == n + i + 1
      invariant dev.sent == old(dev.sent) + UsbPlan()[..i + 1]
      invariant FirstFailure(dev, n, n + 5) == FirstFailure(dev, n + i + 1, n + 5)
      invariant usbinfo == Gathered(dev, n, i)
    {
      var res := dev.Read(UsbQueries[i]);
      assert UsbPlan()[i + 1] == Frame(UsbQueries[i] + "?");
      PrefixStep(old(dev.sent), UsbPlan(), i + 1);
      assert res == dev.Answer(n + i + 1);
      if res.Err? {
        return Err(res.error);
      }
      assert Gathered(dev, n, i + 1) == Gathered(dev, n, i) + res.value;
      usbinfo := usbinfo + res.value;
    }
    r := Ok(usbinfo);
  }

  /** GetUSBInfo succeeds exactly when all five requests were answered; then
      its result holds every line of the four READ answers, in order. */
  lemma UsbResultOkIff(dev: ATDevice, n: nat)
    ensures UsbResult(dev, n).Ok? <==> forall j :: n <= j < n + 5 ==> dev.Answer(j).Ok?
    ensures UsbResult(dev, n).Ok? ==>
      UsbResult(dev, n).value == dev.Answer(n + 1).value + dev.Answer(n + 2).value
                                 + dev.Answer(n + 3).value + dev.Answer(n + 4).value
  {
    FirstFailureAnswered(dev, n, n + 5);
    if UsbResult(dev, n).Ok? {
      assert Gathered(dev, n, 1) == [] + dev.Answer(n + 1).value;
      assert Gathered(dev, n, 2) == Gathered(dev, n, 1) + dev.Answer(n + 2).value;
      assert Gathered(dev, n, 3) == Gathered(dev, n, 2) + dev.Answer(n + 3).value;
      assert Gathered(dev, n, 4) == Gathered(dev, n, 3) + dev.Answer(n + 4).value;
    }
  }

  /** The requests of a complete OpenLock, when its first request is the
      n-th: the token is computed from the answer to the second. */
  ghost function OpenLockPlan(dev: ATDevice, n: nat, solve: (string, string, int) -> string): seq<string>
  {
    [Frame(EnterCndBody), Frame("!OPENLOCK?"), Frame(UnlockBody(Token(solve, dev.Answer(n + 1))))]
  }

  /** OpenLock's verdict on the answer to the token it submitted: True
      exactly when no line is "ERROR". */
  function SubmitVerdict(res: Result<seq<string>>): (r: Result<bool>)
    ensures r.Err? <==> res.Err?
    ensures r == Ok(true) <==> Clean(res)
  {
    match res
    case Err(e) => Err(e)
    case Ok(lines) => Ok("ERROR" !in lines)
  }

  /** What OpenLock returns when its first request is the n-th. */
  ghost function OpenLockResult(dev: ATDevice, n: nat): Result<bool>
  {
    var f := FirstFailure(dev, n, n + 2);
    if f < n + 2 then Err(dev.Answer(f).error) else SubmitVerdict(dev.Answer(n + 2))
  }

  /** OpenLock returns True exactly when all three requests were answered
      and the answer to the token holds no "ERROR" line. */
  lemma OpenLockResultIff(dev: ATDevice, n: nat)
    ensures OpenLockResult(dev, n) == Ok(true)
        <==> dev.Answer(n).Ok? && dev.Answer(n + 1).Ok? && Clean(dev.Answer(n + 2))
  {
    if dev.Answer(n).Ok? {
      assert FirstFailure(dev, n, n + 2) == FirstFailure(dev, n + 1, n + 2);
    }
  }

  /** `EM7455.OpenLock()`: `!ENTERCND`, read the challenge, submit the token
      the key generator derives from its first line; stop at the first
      request that raises. */
  method OpenLock(dev: ATDevice, solve: (string, string, int) -> string) returns (r: Result<bool>)
    requires dev.Valid()
    modifies dev`sent
    ensures !dev.isOpen ==> dev.sent == old(dev.sent) && r == Err(PortNotOpen)
    ensures dev.isOpen ==>
      var n := |old(dev.sent)|;
      dev.sent == old(dev.sent) + OpenLockPlan(dev, n, solve)[..Written(FirstFailure(dev, n, n + 2) - n, 3)]
      && r == OpenLockResult(dev, n)
  {
    ghost var n := |dev.sent|;
    ghost var plan := OpenLockPlan(dev, n, solve);
    var enabled := EnableAdvCmds(dev);
    if enabled.Err? {
      return Err(enabled.error);
    }
    assert dev.sent == old(dev.sent) + plan[..1];
    var challenge := dev.Read("!OPENLOCK");
    assert "!OPENLOCK" + "?" == "!OPENLOCK?";
    assert dev.sent == old(dev.sent) + plan[..1] + [plan[1]];
    PrefixStep(old(dev.sent), plan, 1);
    assert FirstFailure(dev, n, n + 2) == FirstFailure(dev, n + 1, n + 2);
    if challenge.Err? {
      assert challenge == dev.Answer(n + 1);
      assert FirstFailure(dev, n + 1, n + 2) == n + 1;
      assert dev.sent == old(dev.sent) + plan[..2];
      return Err(challenge.error);
    }
    dev.AnswerLines(n + 1);
    var token := solve(DeviceClass, challenge.value[0], 0);
    UnlockRequest(token);
    var res := dev.Exec("!OPENLOCK", [Str(token)]);
    assert dev.sent == old(dev.sent) + plan[..2] + [plan[2]];
    PrefixStep(old(dev.sent), plan, 2);
    assert plan[..3] == plan;
    if res.Err? {
      return Err(res.error);
    }
    r := Ok("ERROR" !in res.value);
  }

  /** `info['IMEI']`, or the error that lookup (or INFO before it) raised. */
  function ImeiField(info: Result<map<string, string>>): Result<string>
  {
    match info
    case Err(e) => Err(e)
    case Ok(fields) => if "IMEI" in fields then Ok(fields["IMEI"]) else Err(MissingKey("IMEI"))
  }

  /** The IMEI an INFO sent as the i-th request reports. */
  ghost function InfoImei(dev: ATDevice, i: nat): Result<string>
  {
    ImeiField(dev.Fields(i))
  }

  /** The requests of a complete RepairIMEI whose first request is the n-th:
      INFO, the three of OpenLock, `!NVIMEIUNLOCK`, `!NVENCRYPTIMEI`, and
      INFO again. No `!RESET` among them. */
  ghost function RepairPlan(dev: ATDevice, n: nat, imei: string, solve: (string, string, int) -> string): (plan: seq<string>)
    ensures |plan| == 7
  {
    [Frame("I")] + OpenLockPlan(dev, n + 1, solve)
    + [Frame("!NVIMEIUNLOCK"), Frame(EncryptBody(imei)), Frame("I")]
  }

  /** An answer with no "ERROR" line. */
  predicate Clean(answer: Result<seq<string>>)
  {
    answer.Ok? && "ERROR" !in answer.value
  }

  /** What RepairIMEI returns for an answer that stops it: the error CMD
      raised, or False for an "ERROR" line. */
  function Refusal(answer: Result<seq<string>>): (r: Result<bool>)
    ensures r.Ok? <==> answer.Ok?
    ensures r != Ok(true)
  {
    if answer.Err? then Err(answer.error) else Ok(false)
  }

  /** Whether step j of RepairIMEI lets it go on (for the last step: ends in
      success). Step 0 is the first INFO and the Luhn check, steps 1 and 2
      the unlock requests that only must not raise, steps 3 to 5 the
      requests whose answer must hold no "ERROR" line, step 6 the INFO that
      must report the new IMEI. */
  ghost predicate StepPasses(dev: ATDevice, n: nat, imei: string, check: Result<bool>, j: nat)
  {
    if j == 0 then InfoImei(dev, n).Ok? && check == Ok(true)
    else if j <= 2 then dev.Answer(n + j).Ok?
    else if j <= 5 then Clean(dev.Answer(n + j))
    else InfoImei(dev, n + 6) == Ok(imei)
  }

  /** The first step from j on that does not pass, or 7. */
  ghost function RepairStop(dev: ATDevice, n: nat, imei: string, check: Result<bool>, j: nat): (s: nat)
    requires j <= 7
    ensures j <= s <= 7
    ensures s < 7 ==> !StepPasses(dev, n, imei, check, s)
    decreases 7 - j
  {
    if j == 7 then 7 else if !StepPasses(dev, n, imei, check, j) then j else RepairStop(dev, n, imei, check, j + 1)
  }

  /** What RepairIMEI returns when step j is the first that does not pass:
      a failed INFO or a missing IMEI field is caught and gives False, as do
      a failed Luhn check and an "ERROR" line; an error raised anywhere else
      propagates. */
  ghost function StepFailure(dev: ATDevice, n: nat, imei: string, check: Result<bool>, j: nat): Result<bool>
  {
    if j == 0 then
      if InfoImei(dev, n).Err? then Ok(false)
      else if check.Err? then Err(check.error)
      else Ok(false)
    else if j == 6 then Ok(false)
    else Refusal(dev.Answer(n + j))
  }

  /** What RepairIMEI returns when its first request is the n-th. */
  ghost function RepairResult(dev: ATDevice, n: nat, imei: string, check: Result<bool>): Result<bool>
  {
    var s := RepairStop(dev, n, imei, check, 0);
    if s < 7 then StepFailure(dev, n, imei, check, s) else Ok(true)
  }

  /** RepairIMEI has run, starting with the log `before`: the requests of
      the steps up to the first that does not pass went out, and the result
      is the verdict on that step. */
  ghost predicate RepairRan(dev: ATDevice, before: seq<string>, imei: string, check: Result<bool>,
                            solve: (string, string, int) -> string, r: Result<bool>)
    reads dev
  {
    var n := |before|;
    dev.sent == before + RepairPlan(dev, n, imei, solve)[..Written(RepairStop(dev, n, imei, check, 0), 7)]
    && r == RepairResult(dev, n, imei, check)
  }

  /** Every step before the one RepairIMEI stops at has passed. */
  lemma {:induction false} StepsBeforeStopPass(dev: ATDevice, n: nat, imei: string, check: Result<bool>, j: nat)
    requires j <= 7
    ensures forall k :: j <= k < RepairStop(dev, n, imei, check, j) ==> StepPasses(dev, n, imei, check, k)
    decreases 7 - j
  {
    if j < 7 && StepPasses(dev, n, imei, check, j) {
      StepsBeforeStopPass(dev, n, imei, check, j + 1);
    }
  }

  /** RepairIMEI returns True exactly when every step passes; the last
      step passing means the IMEI read back is the one written, and the
      first that the new IMEI passed the Luhn check. */
  lemma RepairSucceedsIff(dev: ATDevice, n: nat, imei: string, check: Result<bool>)
    ensures RepairResult(dev, n, imei, check) == Ok(true)
        <==> forall k :: 0 <= k < 7 ==> StepPasses(dev, n, imei, check, k)
    ensures RepairResult(dev, n, imei, check) == Ok(true)
        ==> check == Ok(true) && InfoImei(dev, n + 6) == Ok(imei)
  {
    StepsBeforeStopPass(dev, n, imei, check, 0);
    var s := RepairStop(dev, n, imei, check, 0);
    if s < 7 {
      assert !StepPasses(dev, n, imei, check, s);
      assert StepFailure(dev, n, imei, check, s) != Ok(true);
    } else {
      assert StepPasses(dev, n, imei, check, 0) && StepPasses(dev, n, imei, check, 6);
    }
  }

  /** An IMEI that fails the Luhn check, or that `int` rejects, or a device
      whose INFO yields no IMEI, stops RepairIMEI after its first request:
      only the INFO goes out, and the result is not True. */
  lemma GateStopsRepair(dev: ATDevice, before: seq<string>, imei: string, check: Result<bool>,
                        solve: (string, string, int) -> string, r: Result<bool>)
    requires RepairRan(dev, before, imei, check, solve, r)
    requires check != Ok(true) || InfoImei(dev, |before|).Err?
    ensures dev.sent == before + [Frame("I")]
    ensures r != Ok(true)
    ensures check.Err? && InfoImei(dev, |before|).Ok? ==> r == Err(check.error)
  {
    var plan := RepairPlan(dev, |before|, imei, solve);
    assert RepairStop(dev, |before|, imei, check, 0) == 0;
    assert plan[..1] == [Frame("I")];
  }

  /** The encrypted IMEI is only ever written after the IMEI passed its
      check, the unlock returned True and `!NVIMEIUNLOCK` was answered
      without an "ERROR" line. */
  lemma WriteFollowsUnlock(dev: ATDevice, n: nat, imei: string, check: Result<bool>)
    requires RepairStop(dev, n, imei, check, 0) >= 5
    ensures check == Ok(true) && InfoImei(dev, n).Ok?
    ensures OpenLockResult(dev, n + 1) == Ok(true)
    ensures Clean(dev.Answer(n + 4))
  {
    StepsBeforeStopPass(dev, n, imei, check, 0);
    assert StepPasses(dev, n, imei, check, 0);
    assert StepPasses(dev, n, imei, check, 1) && StepPasses(dev, n, imei, check, 2);
    assert StepPasses(dev, n, imei, check, 3) && StepPasses(dev, n, imei, check, 4);
    OpenLockResultIff(dev, n + 1);
  }

  /** No request of RepairIMEI is `!RESET`. */
  lemma RepairNeverResets(dev: ATDevice, n: nat, imei: string, solve: (string, string, int) -> string)
    ensures Frame("!RESET") !in RepairPlan(dev, n, imei, solve)
  {
    var plan := RepairPlan(dev, n, imei, solve);
    var reset := Frame("!RESET");
    assert reset[3] == 'R';
    forall k | 0 <= k < 7
      ensures plan[k] != reset
    {
      assert |plan[k]| > 3 && plan[k][3] != 'R';
    }
  }

  /** A step that passes hands the decision on to the next one. */
  lemma PassStep(dev: ATDevice, n: nat, imei: string, check: Result<bool>, j: nat)
    requires j < 7 && StepPasses(dev, n, imei, check, j)
    ensures RepairStop(dev, n, imei, check, j) == RepairStop(dev, n, imei, check, j + 1)
  {
  }

  /** RepairIMEI stopped at step j, every step before it having passed. */
  lemma StoppedAt(dev: ATDevice, before: seq<string>, imei: string, check: Result<bool>,
                  solve: (string, string, int) -> string, j: nat, r: Result<bool>)
    requires j < 7
    requires RepairStop(dev, |before|, imei, check, 0) == RepairStop(dev, |before|, imei, check, j)
    requires !StepPasses(dev, |before|, imei, check, j)
    requires dev.sent == before + RepairPlan(dev, |before|, imei, solve)[..j + 1]
    requires r == StepFailure(dev, |before|, imei, check, j)
    ensures RepairRan(dev, before, imei, check, solve, r)
  {
  }

  /** OpenLock inside RepairIMEI did not return True: the repair stops at
      the step OpenLock stopped at, with OpenLock's result. */
  lemma LockFailed(dev: ATDevice, before: seq<string>, mid: seq<string>, imei: string, check: Result<bool>,
                   solve: (string, string, int) -> string, r: Result<bool>)
    requires StepPasses(dev, |before|, imei, check, 0)
    requires mid == before + [Frame("I")]
    requires dev.sent == mid + OpenLockPlan(dev, |mid|, solve)[..Written(FirstFailure(dev, |mid|, |mid| + 2) - |mid|, 3)]
    requires r == OpenLockResult(dev, |mid|) && r != Ok(true)
    ensures RepairRan(dev, before, imei, check, solve, r)
  {
    var n := |before|;
    assert |mid| == n + 1;
    var plan := RepairPlan(dev, n, imei, solve);
    assert plan[1..4] == OpenLockPlan(dev, n + 1, solve);
    if dev.Answer(n + 1).Err? {
      assert plan[..2] == [Frame("I")] + plan[1..4][..1];
      StoppedAt(dev, before, imei, check, solve, 1, r);
    } else if dev.Answer(n + 2).Err? {
      assert FirstFailure(dev, n + 1, n + 3) == n + 2;
      assert plan[..3] == [Frame("I")] + plan[1..4][..2];
      StoppedAt(dev, before, imei, check, solve, 2, r);
    } else {
      assert FirstFailure(dev, n + 1, n + 3) == n + 3;
      assert plan[..4] == [Frame("I")] + plan[1..4];
      assert RepairStop(dev, n, imei, check, 0) == RepairStop(dev, n, imei, check, 3);
      StoppedAt(dev, before, imei, check, solve, 3, r);
    }
  }

  /** OpenLock inside RepairIMEI returned True: steps 1 to 3 passed, and
      the requests of steps 0 to 3 went out. */
  lemma LockPassed(dev: ATDevice, before: seq<string>, locking: seq<string>, mid: seq<string>, imei: string,
                   check: Result<bool>, solve: (string, string, int) -> string)
    requires StepPasses(dev, |before|, imei, check, 0)
    requires locking == before + [Frame("I")]
    requires mid == locking + OpenLockPlan(dev, |locking|, solve)[..Written(FirstFailure(dev, |locking|, |locking| + 2) - |locking|, 3)]
    requires OpenLockResult(dev, |locking|) == Ok(true)
    ensures mid == before + RepairPlan(dev, |before|, imei, solve)[..4]
    ensures RepairStop(dev, |before|, imei, check, 0) == RepairStop(dev, |before|, imei, check, 4)
  {
    var n := |before|;
    var plan := RepairPlan(dev, n, imei, solve);
    assert |locking| == n + 1;
    assert FirstFailure(dev, n + 1, n + 3) == n + 3;
    assert plan[..4] == [Frame("I")] + OpenLockPlan(dev, n + 1, solve);
  }

  /** `EM7455.RepairIMEI(IMEI)`: read the current IMEI, check the new one
      with `luhn`, unlock, `!NVIMEIUNLOCK`, write the encrypted IMEI, read
      the IMEI back. Each step that does not pass ends the call. */
  method RepairIMEI(dev: ATDevice, imei: string, solve: (string, string, int) -> string) returns (r: Result<bool>)
    requires dev.Valid()
    modifies dev`sent
    ensures !dev.isOpen ==> dev.sent == old(dev.sent) && r == Ok(false)
    ensures dev.isOpen ==> RepairRan(dev, old(dev.sent), imei, ImeiChecksum(imei), solve, r)
  {
    ghost var n := |dev.sent|;
    var info := dev.Info();
    var current := ImeiField(info);
    if current.Err? {
      if dev.isOpen {
        StoppedAt(dev, old(dev.sent), imei, ImeiChecksum(imei), solve, 0, Ok(false));
      }
      return Ok(false);
    }
    var valid := ImeiChecksum(imei);
    if valid.Err? || !valid.value {
      r := if valid.Err? then Err(valid.error) else Ok(false);
      StoppedAt(dev, old(dev.sent), imei, ImeiChecksum(imei), solve, 0, r);
      return;
    }
    r := UnlockAndWrite(dev, old(dev.sent), imei, valid, solve);
  }

  /** The part of RepairIMEI after the IMEI has passed its check: OpenLock,
      then, when it returned True, the rest of the repair. */
  method UnlockAndWrite(dev: ATDevice, ghost before: seq<string>, imei: string, ghost check: Result<bool>,
                        solve: (string, string, int) -> string) returns (r: Result<bool>)
    requires dev.Valid() && dev.isOpen
    requires StepPasses(dev, |before|, imei, check, 0)
    requires dev.sent == before + [Frame("I")]
    modifies dev`sent
    ensures RepairRan(dev, before, imei, check, solve, r)
  {
    var unlocked := OpenLock(dev, solve);
    if unlocked != Ok(true) {
      LockFailed(dev, before, old(dev.sent), imei, check, solve, unlocked);
      return unlocked;
    }
    ghost var mid := dev.sent;
    r := WriteImei(dev, imei);
    WriteLinked(dev, before, old(dev.sent), mid, imei, check, solve, r);
  }

  /** The requests of the part of RepairIMEI after a successful unlock. */
  function WritePlan(imei: string): (plan: seq<string>)
    ensures |plan| == 3
  {
    [Frame("!NVIMEIUNLOCK"), Frame(EncryptBody(imei)), Frame("I")]
  }

  /** How many of the three steps after the unlock pass, when the first of
      them is the m-th request. */
  ghost function WriteStop(dev: ATDevice, m: nat, imei: string): (s: nat)
    ensures s <= 3
  {
    if !Clean(dev.Answer(m)) then 0
    else if !Clean(dev.Answer(m + 1)) then 1
    else if InfoImei(dev, m + 2) != Ok(imei) then 2
    else 3
  }

  /** What the part after the unlock returns. */
  ghost function WriteResult(dev: ATDevice, m: nat, imei: string): Result<bool>
  {
    var s := WriteStop(dev, m, imei);
    if s < 2 then Refusal(dev.Answer(m + s)) else Ok(s == 3)
  }

  /** The part of RepairIMEI after a successful unlock: `!NVIMEIUNLOCK`,
      `!NVENCRYPTIMEI` with the encoded IMEI, and the INFO that must report
      the new IMEI; each step that does not pass ends it. */
  method WriteImei(dev: ATDevice, imei: string) returns (r: Result<bool>)
    requires dev.Valid() && dev.isOpen
    modifies dev`sent
    ensures var m := |old(dev.sent)|;
      dev.sent == old(dev.sent) + WritePlan(imei)[..Written(WriteStop(dev, m, imei), 3)]
      && r == WriteResult(dev, m, imei)
  {
    ghost var m := |dev.sent|;
    var res := dev.Exec("!NVIMEIUNLOCK", []);
    assert dev.sent == old(dev.sent) + WritePlan(imei)[..1];
    if res.Err? || "ERROR" in res.value {
      return if res.Err? then Err(res.error) else Ok(false);
    }
    var written := dev.Cmd(EncryptBody(imei));
    assert dev.sent == old(dev.sent) + WritePlan(imei)[..2];
    if written.Err? || "ERROR" in written.value {
      return if written.Err? then Err(written.error) else Ok(false);
    }
    var info := dev.Info();
    assert dev.sent == old(dev.sent) + WritePlan(imei)[..3];
    var current := ImeiField(info);
    if current.Err? || current.value != imei {
      return Ok(false);
    }
    r := Ok(true);
  }

  /** The part after the unlock ran after a successful OpenLock: together
      they are a run of RepairIMEI. */
  lemma WriteLinked(dev: ATDevice, before: seq<string>, locking: seq<string>, mid: seq<string>, imei: string,
                    check: Result<bool>, solve: (string, string, int) -> string, r: Result<bool>)
    requires StepPasses(dev, |before|, imei, check, 0)
    requires locking == before + [Frame("I")]
    requires mid == locking + OpenLockPlan(dev, |locking|, solve)[..Written(FirstFailure(dev, |locking|, |locking| + 2) - |locking|, 3)]
    requires OpenLockResult(dev, |locking|) == Ok(true)
    requires dev.sent == mid + WritePlan(imei)[..Written(WriteStop(dev, |mid|, imei), 3)]
    requires r == WriteResult(dev, |mid|, imei)
    ensures RepairRan(dev, before, imei, check, solve, r)
  {
    LockPassed(dev, before, locking, mid, imei, check, solve);
    WrittenAfterUnlock(dev, before, mid, imei, check, solve, r);
  }

  /** The part after the unlock ran after steps 0 to 3 had passed. */
  lemma WrittenAfterUnlock(dev: ATDevice, before: seq<string>, mid: seq<string>, imei: string,
                           check: Result<bool>, solve: (string, string, int) -> string, r: Result<bool>)
    requires RepairStop(dev, |before|, imei, check, 0) == RepairStop(dev, |before|, imei, check, 4)
    requires mid == before + RepairPlan(dev, |before|, imei, solve)[..4]
    requires dev.sent == mid + WritePlan(imei)[..Written(WriteStop(dev, |mid|, imei), 3)]
    requires r == WriteResult(dev, |mid|, imei)
    ensures RepairRan(dev, before, imei, check, solve, r)
  {
    var n := |before|;
    var plan := RepairPlan(dev, n, imei, solve);
    var s := WriteStop(dev, n + 4, imei);
    assert |mid| == n + 4;
    assert plan[4..] == WritePlan(imei);
    assert plan[..4 + Written(s, 3)] == plan[..4] + WritePlan(imei)[..Written(s, 3)];
    if s == 0 {
      StoppedAt(dev, before, imei, check, solve, 4, r);
    } else if s == 1 {
      PassStep(dev, n, imei, check, 4);
      StoppedAt(dev, before, imei, check, solve, 5, r);
    } else if s == 2 {
      PassStep(dev, n, imei, check, 4);
      PassStep(dev, n, imei, check, 5);
      StoppedAt(dev, before, imei, check, solve, 6, r);
    } else {
      PassStep(dev, n, imei, check, 4);
      PassStep(dev, n, imei, check, 5);
      PassStep(dev, n, imei, check, 6);
      assert plan[..7] == plan;
    }
  }
}
