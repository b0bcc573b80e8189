/** The AT codec of `ATdevice`: argument rendering (va2str), the request
    bodies of the TEST/READ/SET/EXEC helpers and their "AT...\r" framing,
    the normalisation of the lines read back, and list2dict. */
module Codec {
  import opened Results
  import opened Text

  /** One argument of a SET or EXEC command. `Other` stands for a value of
      any other Python type (a bool, a float, bytes, None, ...): va2str
      compares `type(arg)` with `str` and `int` exactly, so it skips those. */
  datatype Arg = Str(s: string) | Int(i: int) | Other

  /** `'"%s"' % s` or `'%d' % i`: one rendered argument, without its comma. */
  function Render(a: Arg): (r: string)
    requires !a.Other?
    ensures a.Str? ==> |r| == |a.s| + 2
  {
    match a
    case Str(s) => "\"" + s + "\""
    case Int(i) => IntToDecimal(i)
  }

  /** The renderings of the string and integer arguments, in order. */
  function Rendered(args: seq<Arg>): (r: seq<string>)
    ensures |r| <= |args|
  {
    if args == [] then []
    else
      var last := args[|args| - 1];
      Rendered(args[..|args| - 1]) + (if last.Other? then [] else [Render(last)])
  }

  /** Each part followed by a comma: what va2str's loop accumulates. */
  function WithCommas(parts: seq<string>): string
  {
    if parts == [] then "" else WithCommas(parts[..|parts| - 1]) + parts[|parts| - 1] + ","
  }

  lemma WithCommasSnoc(parts: seq<string>, x: string)
    ensures WithCommas(parts + [x]) == WithCommas(parts) + x + ","
  {
    assert (parts + [x])[..|parts|] == parts;
  }

  lemma {:induction false} JoinSnoc(parts: seq<string>, x: string, sep: char)
    requires parts != []
    ensures Join(parts + [x], sep) == Join(parts, sep) + [sep] + x
  {
    if |parts| > 1 {
      assert (parts + [x])[1..] == parts[1..] + [x];
      JoinSnoc(parts[1..], x, sep);
    } else {
      assert (parts + [x])[1..] == [x];
    }
  }

  lemma {:induction false} WithCommasIsJoin(parts: seq<string>)
    requires parts != []
    ensures WithCommas(parts) == Join(parts, ',') + ","
  {
    var init := parts[..|parts| - 1];
    if init != [] {
      WithCommasIsJoin(init);
      assert parts == init + [parts[|parts| - 1]];
      JoinSnoc(init, parts[|parts| - 1], ',');
    }
  }

  /** What va2str returns: the comma-join of the renderings, or the error
      its `res[-1]` raises when nothing was rendered. */
  function RenderArgs(args: seq<Arg>): (r: Result<string>)
    ensures r.Err? ==> r.error == NoArguments
    ensures r.Ok? ==> |Rendered(args)| > 0
  {
    var parts := Rendered(args);
    if parts == [] then Err(NoArguments) else Ok(Join(parts, ','))
  }

  /** `ATdevice.va2str(*args)`. */
  method Va2Str(args: seq<Arg>) returns (r: Result<string>)
    ensures r == RenderArgs(args)
  {
    var res := "";
    for i := 0 to |args|
      invariant res == WithCommas(Rendered(args[..i]))
    {
      assert args[..i + 1][..i] == args[..i];
      assert Rendered(args[..i + 1]) ==
        Rendered(args[..i]) + (if args[i].Other? then [] else [Render(args[i])]);
      if !args[i].Other? {
        WithCommasSnoc(Rendered(args[..i]), Render(args[i]));
        res := res + Render(args[i]) + ",";
      } else {
        assert Rendered(args[..i]) + [] == Rendered(args[..i]);
      }
    }
    assert args[..|args|] == args;
    if res == [] {
      return Err(NoArguments);
    }
    WithCommasIsJoin(Rendered(args));
    if res[|res| - 1] == ',' {
      res := res[..|res| - 1];
    }
    r := Ok(res);
  }

  /** va2str raises exactly when no argument is a string or an integer. */
  lemma {:induction false} RenderArgsFailsIff(args: seq<Arg>)
    ensures RenderArgs(args).Err? <==> forall k :: 0 <= k < |args| ==> args[k].Other?
  {
    if args != [] {
      var init := args[..|args| - 1];
      RenderArgsFailsIff(init);
      assert forall k :: 0 <= k < |init| ==> init[k] == args[k];
    }
  }

  lemma {:induction false} RenderedLastChars(args: seq<Arg>)
    ensures forall k :: 0 <= k < |Rendered(args)| ==>
      Rendered(args)[k] != [] && Rendered(args)[k][|Rendered(args)[k]| - 1] != ','
  {
    if args != [] {
      RenderedLastChars(args[..|args| - 1]);
      var last := args[|args| - 1];
      if last.Int? {
        var d := NatToDecimal(if last.i < 0 then -last.i else last.i);
        assert IsDigit(d[|d| - 1]);
      }
    }
  }

  lemma {:induction false} JoinLastChar(parts: seq<string>, sep: char)
    requires parts != [] && parts[|parts| - 1] != []
    ensures Join(parts, sep) != []
    ensures Join(parts, sep)[|Join(parts, sep)| - 1] == parts[|parts| - 1][|parts[|parts| - 1]| - 1]
  {
    if |parts| > 1 {
      JoinLastChar(parts[1..], sep);
    }
  }

  /** The rendered argument list never ends with a comma. */
  lemma NoTrailingComma(args: seq<Arg>)
    requires RenderArgs(args).Ok?
    ensures RenderArgs(args).value != []
    ensures RenderArgs(args).value[|RenderArgs(args).value| - 1] != ','
  {
    RenderedLastChars(args);
    JoinLastChar(Rendered(args), ',');
  }

  lemma {:induction false} RenderedHasNoSeparator(args: seq<Arg>)
    requires forall k :: 0 <= k < |args| && args[k].Str? ==> ',' !in args[k].s
    ensures forall k :: 0 <= k < |Rendered(args)| ==> ',' !in Rendered(args)[k]
  {
    if args != [] {
      var init := args[..|args| - 1];
      assert forall k :: 0 <= k < |init| ==> init[k] == args[k];
      RenderedHasNoSeparator(init);
      var last := args[|args| - 1];
      if last.Int? {
        var d := NatToDecimal(if last.i < 0 then -last.i else last.i);
        assert forall k :: 0 <= k < |d| ==> IsDigit(d[k]);
      }
    }
  }

  /** Splitting the rendered list on commas gives back one rendering per
      string or integer argument, provided no string argument holds a comma. */
  lemma SplitRendered(args: seq<Arg>)
    requires RenderArgs(args).Ok?
    requires forall k :: 0 <= k < |args| && args[k].Str? ==> ',' !in args[k].s
    ensures Split(RenderArgs(args).value, ',') == Rendered(args)
  {
    RenderedHasNoSeparator(args);
    SplitJoin(Rendered(args), ',');
  }

  lemma {:induction false} RenderedInts(args: seq<Arg>)
    requires forall k :: 0 <= k < |args| ==> args[k].Int?
    ensures |Rendered(args)| == |args|
    ensures forall k :: 0 <= k < |args| ==> Rendered(args)[k] == IntToDecimal(args[k].i)
  {
    if args != [] {
      var init := args[..|args| - 1];
      assert forall k :: 0 <= k < |init| ==> init[k] == args[k];
      RenderedInts(init);
      var last := args[|args| - 1];
      assert Rendered(args) == Rendered(init) + [Render(last)];
      forall k | 0 <= k < |args|
        ensures Rendered(args)[k] == IntToDecimal(args[k].i)
      {
        if k < |init| {
          assert Rendered(args)[k] == Rendered(init)[k] && args[k] == init[k];
        }
      }
    }
  }

  /** Integer arguments survive the trip through va2str and back through
      `int()`: the k-th comma-separated field parses to the k-th argument. */
  lemma IntArgsRoundTrip(args: seq<Arg>)
    requires args != []
    requires forall k :: 0 <= k < |args| ==> args[k].Int?
    ensures RenderArgs(args).Ok?
    ensures |Split(RenderArgs(args).value, ',')| == |args|
    ensures forall k :: 0 <= k < |args| ==>
      ParseInt(Split(RenderArgs(args).value, ',')[k]) == Ok(args[k].i)
  {
    RenderedInts(args);
    SplitRendered(args);
    forall k | 0 <= k < |args|
      ensures ParseInt(Split(RenderArgs(args).value, ',')[k]) == Ok(args[k].i)
    {
      ParseIntRoundTrip(args[k].i);
    }
  }

  /** A single string argument goes out in double quotes and nothing else. */
  lemma SingleStringArg(s: string)
    ensures RenderArgs([Str(s)]) == Ok("\"" + s + "\"")
  {
    assert [Str(s)][..0] == [];
    assert Rendered([Str(s)]) == [] + [Render(Str(s))];
  }

  /** The request CMD writes for a body: "AT", the body, a carriage return. */
  function Frame(body: string): string
  {
    "AT" + body + "\r"
  }

  /** A request is "AT", then the body untouched, then one carriage return;
      so different bodies give different requests. */
  lemma FrameParts(body: string, other: string)
    ensures var r := Frame(body);
      |r| == |body| + 3 && r[..2] == "AT" && r[2..|r| - 1] == body && r[|r| - 1] == '\r'
    ensures Frame(body) == Frame(other) <==> body == other
  {
    var r, q := Frame(body), Frame(other);
    assert r[2..|r| - 1] == body;
    assert q[2..|q| - 1] == other;
  }

  /** The four helper shapes: TEST, READ, SET and EXEC. */
  datatype Mode = Test | Read | Set | Exec

  /** `command=<va2str(args)>`, or the error va2str raises. */
  function AssignBody(command: string, args: seq<Arg>): Result<string>
  {
    match RenderArgs(args)
    case Ok(rendered) => Ok(command + "=" + rendered)
    case Err(e) => Err(e)
  }

  /** The body a helper hands to CMD, or the error raised before anything is
      written: `cmd=?` for TEST, `cmd?` for READ, `cmd=args` for SET and for
      EXEC with arguments, the bare `cmd` for EXEC without. */
  function RequestBody(command: string, mode: Mode, args: seq<Arg>): (r: Result<string>)
    ensures (mode == Mode.Test || mode == Mode.Read || (mode == Mode.Exec && args == [])) ==> r.Ok?
    ensures r.Ok? ==> |command| <= |r.value| && r.value[..|command|] == command
    ensures r.Err? ==> r.error == NoArguments
  {
    match mode
    case Test => Ok(command + "=?")
    case Read => Ok(command + "?")
    case Set => AssignBody(command, args)
    case Exec => if |args| > 0 then AssignBody(command, args) else Ok(command)
  }

  /** `[line.strip() for line in response]`. */
  function StripAll(raw: seq<string>): seq<string>
  {
    seq(|raw|, k requires 0 <= k < |raw| => Strip(raw[k]))
  }

  /** `[line for line in lines if len(line) > 0]`. */
  function DropEmpty(lines: seq<string>): (r: seq<string>)
    ensures |r| <= |lines|
  {
    if lines == [] then []
    else (if lines[0] == "" then [] else [lines[0]]) + DropEmpty(lines[1..])
  }

  /** The lines CMD keeps from what it read: each stripped, the blank ones
      dropped. */
  function Normalize(raw: seq<string>): (r: seq<string>)
    ensures |r| <= |raw|
  {
    DropEmpty(StripAll(raw))
  }

  /** Normalising one raw line ahead of the rest. */
  lemma NormalizeCons(line: string, rest: seq<string>)
    ensures Normalize([line] + rest) ==
      (if Strip(line) == "" then [] else [Strip(line)]) + Normalize(rest)
  {
    var stripped := StripAll([line] + rest);
    assert stripped == [Strip(line)] + StripAll(rest);
    assert stripped[0] == Strip(line) && stripped[1..] == StripAll(rest);
  }

  /** Every line CMD keeps is non-empty and already stripped. */
  lemma {:induction false} NormalizedLines(raw: seq<string>)
    ensures forall k :: 0 <= k < |Normalize(raw)| ==>
      Normalize(raw)[k] != "" && IsStripped(Normalize(raw)[k])
  {
    if raw != [] {
      assert raw == [raw[0]] + raw[1..];
      NormalizeCons(raw[0], raw[1..]);
      NormalizedLines(raw[1..]);
      StripIsStripped(raw[0]);
    }
  }

  lemma {:induction false} DropEmptyAppend(a: seq<string>, b: seq<string>)
    ensures DropEmpty(a + b) == DropEmpty(a) + DropEmpty(b)
  {
    if a == [] {
      assert a + b == b;
    } else {
      assert (a + b)[0] == a[0] && (a + b)[1..] == a[1..] + b;
      DropEmptyAppend(a[1..], b);
    }
  }

  /** Normalising keeps the order of the lines: it distributes over
      concatenation, one raw line at a time. */
  lemma NormalizeAppend(a: seq<string>, b: seq<string>)
    ensures Normalize(a + b) == Normalize(a) + Normalize(b)
  {
    assert StripAll(a + b) == StripAll(a) + StripAll(b);
    DropEmptyAppend(StripAll(a), StripAll(b));
  }

  /** A line is kept exactly when it is the non-empty strip of some raw line. */
  lemma {:induction false} NormalizeMember(raw: seq<string>, x: string)
    ensures x in Normalize(raw) <==> x != "" && exists k :: 0 <= k < |raw| && Strip(raw[k]) == x
  {
    if raw != [] {
      var rest := raw[1..];
      assert raw == [raw[0]] + rest;
      NormalizeCons(raw[0], rest);
      NormalizeMember(rest, x);
      if exists k :: 0 <= k < |rest| && Strip(rest[k]) == x {
        var k :| 0 <= k < |rest| && Strip(rest[k]) == x;
        assert Strip(raw[k + 1]) == x;
      }
      if exists k :: 0 <= k < |raw| && Strip(raw[k]) == x {
        var k :| 0 <= k < |raw| && Strip(raw[k]) == x;
        if k > 0 {
          assert Strip(rest[k - 1]) == x;
        }
      }
    }
  }

  lemma {:induction false} NormalizeBlank(raw: seq<string>)
    requires forall k :: 0 <= k < |raw| ==> Strip(raw[k]) == ""
    ensures Normalize(raw) == []
  {
    if raw != [] {
      assert raw == [raw[0]] + raw[1..];
      NormalizeCons(raw[0], raw[1..]);
      NormalizeBlank(raw[1..]);
    }
  }

  /** Normalising twice is normalising once. */
  lemma {:induction false} NormalizeIdempotent(raw: seq<string>)
    ensures Normalize(Normalize(raw)) == Normalize(raw)
  {
    if raw != [] {
      var rest := raw[1..];
      assert raw == [raw[0]] + rest;
      NormalizeCons(raw[0], rest);
      NormalizeIdempotent(rest);
      var line := Strip(raw[0]);
      if line != "" {
        assert Normalize(raw) == [line] + Normalize(rest);
        StripIdempotent(raw[0]);
        NormalizeCons(line, Normalize(rest));
      } else {
        assert Normalize(raw) == Normalize(rest);
      }
    }
  }

  /** What CMD returns for the raw lines it read: the normalised lines, or
      the IndexError of `response[-1]` when none is left. */
  function Response(raw: seq<string>): (r: Result<seq<string>>)
    ensures r.Ok? ==> r.value != [] && |r.value| <= |raw|
    ensures r.Err? ==> r.error == NoResponse
  {
    var lines := Normalize(raw);
    if lines == [] then Err(NoResponse) else Ok(lines)
  }

  /** CMD's OK/ERROR classification; it only decides what CMD logs. */
  predicate IsOk(response: seq<string>): (b: bool)
    requires response != []
    ensures b ==> "OK" in response
  {
    response[|response| - 1] == "OK"
  }

  /** The classification looks at the last non-blank raw line alone: payload
      before it and blank lines after it make no difference. */
  lemma ClassifiedByLastLine(raw: seq<string>, line: string, blanks: seq<string>)
    requires Strip(line) != ""
    requires forall k :: 0 <= k < |blanks| ==> Strip(blanks[k]) == ""
    ensures Response(raw + [line] + blanks).Ok?
    ensures IsOk(Response(raw + [line] + blanks).value) <==> Strip(line) == "OK"
  {
    NormalizeAppend(raw + [line], blanks);
    NormalizeAppend(raw, [line]);
    NormalizeBlank(blanks);
    NormalizeCons(line, []);
    assert [line] + [] == [line];
    assert StripAll([]) == [];
    assert Normalize(raw + [line] + blanks) == Normalize(raw) + [Strip(line)];
  }

  /** `s.split(':', 1)` on a line holding a colon: the text before the first
      colon and everything after it, later colons included. */
  function SplitAtColon(line: string): (r: (string, string))
    requires ':' in line
    ensures line == r.0 + ":" + r.1
    ensures ':' !in r.0
  {
    var i := IndexOf(line, ':');
    assert line == line[..i] + ":" + line[i + 1..];
    (line[..i], line[i + 1..])
  }

  /** The dictionary key list2dict takes from a line. */
  function LineKey(line: string): string
    requires ':' in line
  {
    Strip(SplitAtColon(line).0)
  }

  /** The dictionary value list2dict takes from a line. */
  function LineValue(line: string): string
    requires ':' in line
  {
    Strip(SplitAtColon(line).1)
  }

  /** `ATdevice.list2dict(lines)`: dict() consumes the split lines in order,
      later keys overwrite earlier ones, and the first line with no colon
      raises. */
  function ListToDict(lines: seq<string>): (r: Result<map<string, string>>)
    ensures r.Err? ==> r.error.MalformedLine? && ':' !in r.error.line
    ensures r.Err? ==> r.error.line in lines
  {
    if lines == [] then Ok(map[])
    else
      var line := lines[|lines| - 1];
      match ListToDict(lines[..|lines| - 1])
      case Err(e) => Err(e)
      case Ok(m) =>
        if ':' in line then Ok(m[LineKey(line) := LineValue(line)]) else Err(MalformedLine(line))
  }

  /** list2dict succeeds exactly when every line holds a colon. */
  lemma {:induction false} ListToDictOkIff(lines: seq<string>)
    ensures ListToDict(lines).Ok? <==> forall k :: 0 <= k < |lines| ==> ':' in lines[k]
  {
    if lines != [] {
      var init := lines[..|lines| - 1];
      assert forall k :: 0 <= k < |init| ==> init[k] == lines[k];
      ListToDictOkIff(init);
    }
  }

  /** It raises on the first line with no colon. */
  lemma {:induction false} ListToDictFirstError(lines: seq<string>, i: nat)
    requires i < |lines| && ':' !in lines[i]
    requires forall k :: 0 <= k < i ==> ':' in lines[k]
    ensures ListToDict(lines) == Err(MalformedLine(lines[i]))
  {
    var init := lines[..|lines| - 1];
    if i < |lines| - 1 {
      ListToDictFirstError(init, i);
    } else {
      assert forall k :: 0 <= k < |init| ==> init[k] == lines[k];
      ListToDictOkIff(init);
    }
  }

  /** Some line of `lines` carries `key`. */
  predicate CarriesKey(lines: seq<string>, key: string)
  {
    exists k :: 0 <= k < |lines| && ':' in lines[k] && LineKey(lines[k]) == key
  }

  /** A key carried by a line is still carried once more lines follow. */
  lemma CarriesKeyPrefix(lines: seq<string>, n: nat, key: string)
    requires n <= |lines| && CarriesKey(lines[..n], key)
    ensures CarriesKey(lines, key)
  {
    var k :| 0 <= k < n && ':' in lines[..n][k] && LineKey(lines[..n][k]) == key;
    assert lines[k] == lines[..n][k];
  }

  /** A key carried by the lines but not by the last one is carried by an
      earlier line. */
  lemma CarriesKeyBeforeLast(lines: seq<string>, key: string)
    requires lines != [] && CarriesKey(lines, key)
    requires ':' in lines[|lines| - 1] && LineKey(lines[|lines| - 1]) != key
    ensures CarriesKey(lines[..|lines| - 1], key)
  {
    var k :| 0 <= k < |lines| && ':' in lines[k] && LineKey(lines[k]) == key;
    assert LineKey(lines[k]) != LineKey(lines[|lines| - 1]);
    assert k != |lines| - 1;
    assert lines[..|lines| - 1][k] == lines[k];
  }

  /** The keys are exactly the stripped keys of the lines. */
  lemma {:induction false} ListToDictKeys(lines: seq<string>, key: string)
    requires ListToDict(lines).Ok?
    ensures key in ListToDict(lines).value <==> CarriesKey(lines, key)
  {
    if lines != [] {
      var init, last := lines[..|lines| - 1], lines[|lines| - 1];
      var m := ListToDict(init).value;
      assert ':' in last && ListToDict(lines).value == m[LineKey(last) := LineValue(last)];
      ListToDictKeys(init, key);
      if CarriesKey(init, key) {
        CarriesKeyPrefix(lines, |lines| - 1, key);
      }
      if LineKey(last) == key {
        assert ':' in lines[|lines| - 1] && LineKey(lines[|lines| - 1]) == key;
      }
      if CarriesKey(lines, key) && LineKey(last) != key {
        CarriesKeyBeforeLast(lines, key);
      }
    }
  }

  /** The value of a key comes from the last line carrying that key. */
  lemma {:induction false} ListToDictLastWins(lines: seq<string>, i: nat)
    requires ListToDict(lines).Ok?
    requires i < |lines| && ':' in lines[i]
    requires forall k :: i < k < |lines| && ':' in lines[k] ==> LineKey(lines[k]) != LineKey(lines[i])
    ensures LineKey(lines[i]) in ListToDict(lines).value
    ensures ListToDict(lines).value[LineKey(lines[i])] == LineValue(lines[i])
  {
    var init := lines[..|lines| - 1];
    if i < |lines| - 1 {
      assert forall k :: 0 <= k < |init| ==> init[k] == lines[k];
      ListToDictLastWins(init, i);
    }
  }
}
