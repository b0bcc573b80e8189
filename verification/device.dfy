/** `ATdevice`: the serial port of an AT modem reduced to what the modem
    code observes of it. The port is open or closed; every request written
    to it is appended to a log; and the raw lines `readlines` returns after
    the i-th request ever written are fixed in advance by a script. */
module Device {
  import opened Results
  import opened Text
  import opened Codec

  /** A result with its value dropped: success, or the same error. */
  function Status<T>(r: Result<T>): (s: Result<()>)
    ensures s.Ok? <==> r.Ok?
    ensures r.Err? ==> s.error == r.error
  {
    match r
    case Ok(_) => Ok(())
    case Err(e) => Err(e)
  }

  /** What INFO makes of the lines `EXEC("I")` returned: `list2dict` of
      `res[0:-1]`, every line but the last (the terminal "OK"). */
  function InfoFields(res: Result<seq<string>>): (r: Result<map<string, string>>)
    ensures res.Err? ==> r == Err(res.error)
    ensures res.Ok? && |res.value| <= 1 ==> r == Ok(map[])
  {
    match res
    case Err(e) => Err(e)
    case Ok(lines) => ListToDict(if lines == [] then [] else lines[..|lines| - 1])
  }

  /** INFO never looks at the last line: whatever it is, the fields come from
      the lines before it. */
  lemma InfoIgnoresLastLine(lines: seq<string>, last: string)
    ensures InfoFields(Ok(lines + [last])) == ListToDict(lines)
  {
    assert (lines + [last])[..|lines|] == lines;
  }

  /** A field INFO reports is the stripped text after the first colon of the
      last line before the final one that carries its key. */
  lemma InfoField(lines: seq<string>, last: string, i: nat)
    requires ListToDict(lines).Ok?
    requires i < |lines| && ':' in lines[i]
    requires forall k :: i < k < |lines| && ':' in lines[k] ==> LineKey(lines[k]) != LineKey(lines[i])
    ensures InfoFields(Ok(lines + [last])).Ok?
    ensures LineKey(lines[i]) in InfoFields(Ok(lines + [last])).value
    ensures InfoFields(Ok(lines + [last])).value[LineKey(lines[i])] == LineValue(lines[i])
  {
    InfoIgnoresLastLine(lines, last);
    ListToDictLastWins(lines, i);
  }

  class ATDevice {
    /** Whether the serial port is open. */
    var isOpen: bool
    /** Every request written to the port, oldest first. */
    var sent: seq<string>
    /** `script[i]`: the raw lines read back after the i-th request ever
        written to the port. */
    const script: seq<seq<string>>
    /** `replies[i]`: what CMD makes of `script[i]`. */
    ghost const replies: seq<Result<seq<string>>>
    /** `fields[i]`: what INFO makes of `script[i]`. */
    ghost const fields: seq<Result<map<string, string>>>

    /** The replies and fields are CMD's and INFO's reading of the script. */
    ghost predicate Valid()
    {
      |replies| == |script| && |fields| == |script|
      && forall i {:trigger script[i]} :: 0 <= i < |script| ==>
           replies[i] == Response(script[i]) && fields[i] == InfoFields(Response(script[i]))
    }

    /** A device on a closed port that has written nothing yet. */
    constructor (script: seq<seq<string>>)
      ensures Valid() && !isOpen && sent == [] && this.script == script
    {
      isOpen := false;
      sent := [];
      this.script := script;
      replies := seq(|script|, i requires 0 <= i < |script| => Response(script[i]));
      fields := seq(|script|, i requires 0 <= i < |script| => InfoFields(Response(script[i])));
    }

    /** The raw lines read after the i-th request; nothing at all once the
        script is used up, as when `readlines` times out. */
    function RawReply(i: nat): seq<string>
    {
      if i < |script| then script[i] else []
    }

    /** What CMD returns for the i-th request: an empty read raises. */
    ghost function Answer(i: nat): Result<seq<string>>
    {
      if i < |replies| then replies[i] else Err(NoResponse)
    }

    /** What INFO returns when its request is the i-th. */
    ghost function Fields(i: nat): Result<map<string, string>>
    {
      if i < |fields| then fields[i] else Err(NoResponse)
    }

    /** INFO's result is list2dict of CMD's answer without its last line. */
    lemma FieldsOfAnswer(i: nat)
      requires Valid()
      ensures Fields(i) == InfoFields(Answer(i))
    {
      if i < |script| {
        assert replies[i] == Response(script[i]);
      }
    }

    /** CMD never returns an empty response: its lines are stripped and not
        blank. */
    lemma AnswerLines(i: nat)
      requires Valid()
      ensures Answer(i).Ok? ==> Answer(i).value != []
      ensures Answer(i).Ok? ==> forall k :: 0 <= k < |Answer(i).value| ==>
        Answer(i).value[k] != "" && IsStripped(Answer(i).value[k])
    {
      if i < |script| {
        assert replies[i] == Response(script[i]);
        NormalizedLines(script[i]);
      }
    }

    /** One CMD exchange for `body` has happened since the log was `before`:
        on an open port exactly `Frame(body)` was written and `r` is the
        answer to it; on a closed port nothing was written and pyserial's
        error came back. */
    ghost predicate Exchanged(before: seq<string>, body: string, r: Result<seq<string>>)
      reads this
    {
      if isOpen then sent == before + [Frame(body)] && r == Answer(|before|)
      else sent == before && r == Err(PortNotOpen)
    }

    /** A helper call whose body is `body` has happened: when the body could
        not be built nothing was written and its error came back. */
    ghost predicate Requested(before: seq<string>, body: Result<string>, r: Result<seq<string>>)
      reads this
    {
      match body
      case Ok(b) => Exchanged(before, b, r)
      case Err(e) => sent == before && r == Err(e)
    }

    /** `ATdevice.CMD(command)`: write `"AT" + command + "\r"`, read the
        answer, strip every line, drop the blank ones; `response[-1]`
        raises when nothing is left. */
    method Cmd(command: string) returns (r: Result<seq<string>>)
      requires Valid()
      modifies this`sent
      ensures Exchanged(old(sent), command, r)
    {
      if !isOpen {
        return Err(PortNotOpen);
      }
      var raw := RawReply(|sent|);
      sent := sent + [Frame(command)];
      var response := StripAll(raw);
      response := DropEmpty(response);
      if response == [] {
        return Err(NoResponse);
      }
      r := Ok(response);
    }

    /** `ATdevice.TEST(command)`. */
    method Test(command: string) returns (r: Result<seq<string>>)
      requires Valid()
      modifies this`sent
      ensures Requested(old(sent), RequestBody(command, Mode.Test, []), r)
    {
      r := Cmd(command + "=?");
    }

    /** `ATdevice.READ(command)`. */
    method Read(command: string) returns (r: Result<seq<string>>)
      requires Valid()
      modifies this`sent
      ensures Requested(old(sent), RequestBody(command, Mode.Read, []), r)
    {
      r := Cmd(command + "?");
    }

    /** `ATdevice.SET(command, *args)`: va2str runs before anything is
        written, so its error leaves the port untouched. */
    method Set(command: string, args: seq<Arg>) returns (r: Result<seq<string>>)
      requires Valid()
      modifies this`sent
      ensures Requested(old(sent), RequestBody(command, Mode.Set, args), r)
    {
      var rendered := Va2Str(args);
      if rendered.Err? {
        return Err(rendered.error);
      }
      r := Cmd(command + "=" + rendered.value);
    }

    /** `ATdevice.EXEC(command, *args)`. */
    method Exec(command: string, args: seq<Arg>) returns (r: Result<seq<string>>)
      requires Valid()
      modifies this`sent
      ensures Requested(old(sent), RequestBody(command, Mode.Exec, args), r)
    {
      if |args| > 0 {
        var rendered := Va2Str(args);
        if rendered.Err? {
          return Err(rendered.error);
        }
        r := Cmd(command + "=" + rendered.value);
      } else {
        r := Cmd(command);
      }
    }

    /** `ATdevice.INFO()`: `EXEC("I")`, then list2dict of all lines but the
        last. */
    method Info() returns (r: Result<map<string, string>>)
      requires Valid()
      modifies this`sent
      ensures isOpen ==> sent == old(sent) + [Frame("I")] && r == Fields(|old(sent)|)
      ensures !isOpen ==> sent == old(sent) && r == Err(PortNotOpen)
    {
      var res := Exec("I", []);
      r := InfoFields(res);
      FieldsOfAnswer(|old(sent)|);
    }

    /** `ATdevice.RESET()`: `EXEC("!RESET")`, its answer discarded. */
    method Reset() returns (r: Result<()>)
      requires Valid()
      modifies this`sent
      ensures isOpen ==> sent == old(sent) + [Frame("!RESET")] && r == Status(Answer(|old(sent)|))
      ensures !isOpen ==> sent == old(sent) && r == Err(PortNotOpen)
    {
      var res := Exec("!RESET", []);
      r := Status(res);
    }

    /** `ATdevice.open()`: an open port is left alone; otherwise the port is
        opened and echo is switched off with `ATE0`. */
    method Open() returns (r: Result<()>)
      requires Valid()
      modifies this
      ensures isOpen
      ensures old(isOpen) ==> sent == old(sent) && r == Ok(())
      ensures !old(isOpen) ==> sent == old(sent) + [Frame("E0")] && r == Status(Answer(|old(sent)|))
    {
      if isOpen {
        return Ok(());
      }
      isOpen := true;
      var res := Cmd("E0");
      r := Status(res);
    }

    /** `ATdevice.close()`: afterwards the port is closed, whatever it was. */
    method Close()
      modifies this`isOpen
      ensures !isOpen
    {
      if isOpen {
        isOpen := false;
      }
    }
  }
}
