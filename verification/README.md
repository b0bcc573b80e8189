# EM7455 AT tools, modelled in Dafny

This project models the AT-command layer in `edlclient/Tools/em7455_tools.py`, along with the Sierra Wireless EM7455 operations built on it.

`ATdevice` talks to a modem over a serial port:
- It writes `"AT" + command + "\r"`.
- It reads back every line the modem sends.
- It strips those lines and drops the blank ones.

On top of that sit several helpers:
- TEST (`cmd=?`), READ (`cmd?`), SET (`cmd=args`) and EXEC (`cmd`, or `cmd=args`). Arguments are rendered by `va2str`: strings in double quotes, integers in decimal, joined by commas.
- INFO, which reads `ATI` and parses every line but the last with `list2dict` into a key/value map.
- RESET.
- `open`/`close`.

`EM7455` adds:
- enabling the engineering command set (`!ENTERCND="A710"`);
- reading the USB settings;
- the challenge/response unlock (`!OPENLOCK`);
- the IMEI repair.

The repair runs these steps:
1. Read the current IMEI.
2. Check the new IMEI with the Luhn check digit of ISO/IEC 7812-1 (Annex B).
3. Unlock.
4. Send `!NVIMEIUNLOCK`.
5. Write the IMEI, padded with a "0" and cut into two-digit groups, with `!NVENCRYPTIMEI`.
6. Read the IMEI back.

The model is built in five modules:
- **Results.** A Python exception the code does not catch becomes `Err(e)` of `Result<T>`. There is one `Error` constructor per place an exception comes from: a closed port, an empty response, an empty `va2str`, a line without a colon, a missing field, and a bad integer literal.
- **Text.** The parts of `str.strip`, `str.split`, `','.join`, `str(int)` and `int(str)` that the code relies on.
- **Codec.** `va2str` (a method with a loop, like the source), the request bodies and their framing, response normalisation, and `list2dict`.
- **Device.** `ATDevice` is a class.
  - Its state is whether the port is open, plus the log of every request written.
  - What the modem answers is fixed in advance by a script: the raw lines read after the i-th request ever written. Once the script runs out, nothing comes back, which is how `readlines` behaves when it times out.
  - Every helper is a method. Its `ensures` says exactly what it appended to the log and what it returned.
- **Imei and EM7455.** The nested `luhn` and the IMEI argument encoding. The EM7455 operations are methods over an `ATDevice`. Each is specified by a *plan*: the requests a complete run writes.
  - A call writes a prefix of its plan that ends at the first step that does not pass.
  - It returns the verdict on that step.
  - Lemmas then state what such a run means. It succeeds exactly when every step passes. A bad IMEI stops it after one request. The encrypted IMEI is only written after a successful unlock. `!RESET` is never sent.

Behaviour the model keeps from the code as written:
- **Lines without a colon.** `list2dict` raises on a line without a colon; it does not skip it.
- **IMEI length.** RepairIMEI does not check the IMEI's length.
- **No reset.** RepairIMEI never sends `!RESET`.
- **The token.** OpenLock passes the token to EXEC as a string, so it goes out in double quotes.
- **OK/ERROR.** CMD's classification of a response as OK or ERROR only decides what it logs. The response is returned either way.

## Model

| member | source | states |
|---|---|---|
| Codec.Render | edlclient/Tools/em7455_tools.py:56-59 | one argument as va2str renders it, without its comma: a string in double quotes (two characters longer than the string), an integer in decimal |
| Codec.Rendered | edlclient/Tools/em7455_tools.py:55-59 | the renderings of the `str` and `int` arguments in order, other types skipped; there are never more renderings than arguments |
| Codec.RenderArgs | edlclient/Tools/em7455_tools.py:52-62 | va2str's value: the comma-join of the renderings; when nothing was rendered, `res[-1]` raises, and that is the only error |
| Codec.Va2Str | edlclient/Tools/em7455_tools.py:52-62 | the loop builds the comma-join of the renderings of the `str` and `int` arguments in order (other types skipped); it raises when none was rendered |
| Codec.RenderArgsFailsIff | edlclient/Tools/em7455_tools.py:55-60 | va2str raises exactly when no argument is a `str` or an `int` |
| Codec.NoTrailingComma | edlclient/Tools/em7455_tools.py:60-62 | a successful va2str result is non-empty and does not end with a comma |
| Codec.SplitRendered | edlclient/Tools/em7455_tools.py:52-62 | when no string argument holds a comma, splitting the result on commas gives back one rendering per argument, in order |
| Codec.IntArgsRoundTrip | edlclient/Tools/em7455_tools.py:58-59 | integer arguments round-trip: the k-th comma-separated field of va2str's output parses with `int()` to the k-th argument |
| Codec.SingleStringArg | edlclient/Tools/em7455_tools.py:56-57 | a single string argument is rendered as that string in double quotes, with no comma |
| Codec.FrameParts | edlclient/Tools/em7455_tools.py:67 | `Frame(body)`, the request CMD writes, is "AT", the body unchanged and one carriage return; different bodies give different requests |
| Codec.RequestBody | edlclient/Tools/em7455_tools.py:80-97 | the body a helper hands to CMD starts with the command. TEST, READ and EXEC without arguments always yield a body. The only error is va2str's, for SET and for EXEC with arguments |
| Codec.Normalize | edlclient/Tools/em7455_tools.py:71-72 | the lines CMD keeps, each stripped and the blank ones dropped; never more than were read |
| Codec.Response | edlclient/Tools/em7455_tools.py:70-78 | what CMD returns: a non-empty list of at most as many lines as were read, or the IndexError of `response[-1]` and no other error |
| Codec.IsOk | edlclient/Tools/em7455_tools.py:73 | CMD's classification of a response as OK: it holds only when some line is "OK" (the last line, per `Codec.ClassifiedByLastLine`) |
| Codec.NormalizedLines | edlclient/Tools/em7455_tools.py:71-72 | every line CMD keeps is non-empty and already stripped |
| Codec.NormalizeAppend | edlclient/Tools/em7455_tools.py:71-72 | normalisation keeps line order: it distributes over concatenation of the raw lines |
| Codec.NormalizeMember | edlclient/Tools/em7455_tools.py:71-72 | a line is kept exactly when it is the non-empty strip of some raw line |
| Codec.NormalizeIdempotent | edlclient/Tools/em7455_tools.py:71-72 | normalising an already normalised response changes nothing |
| Codec.ClassifiedByLastLine | edlclient/Tools/em7455_tools.py:72-77 | a response whose last non-blank raw line is `line` is non-empty, and it is classified OK exactly when `line` strips to "OK", whatever precedes it and whatever blank lines follow |
| Codec.SplitAtColon | edlclient/Tools/em7455_tools.py:50 | `split(':', 1)` cuts at the first colon: the line is key + ":" + rest, and the key holds no colon |
| Codec.ListToDict | edlclient/Tools/em7455_tools.py:48-50 | list2dict: the map built from the lines in order, later keys overwriting earlier ones. Its only error is a line of the input that has no colon |
| Codec.ListToDictOkIff | edlclient/Tools/em7455_tools.py:48-50 | list2dict succeeds exactly when every line holds a colon |
| Codec.ListToDictFirstError | edlclient/Tools/em7455_tools.py:48-50 | list2dict raises on the first line with no colon |
| Codec.ListToDictKeys | edlclient/Tools/em7455_tools.py:48-50 | the keys of the map are exactly the stripped text before the first colon of some line |
| Codec.ListToDictLastWins | edlclient/Tools/em7455_tools.py:48-50 | a key's value is the stripped text after the first colon of the last line that carries that key |
| Device.Status | edlclient/Tools/em7455_tools.py:104-113 | dropping a helper's value keeps success, and keeps the error unchanged |
| Device.InfoFields | edlclient/Tools/em7455_tools.py:101-102 | what INFO makes of EXEC's result: EXEC's error unchanged, list2dict of all lines but the last, and so an empty map for a one-line answer |
| Device.InfoIgnoresLastLine | edlclient/Tools/em7455_tools.py:99-102 | INFO parses every line but the last, whatever the last line is |
| Device.InfoField | edlclient/Tools/em7455_tools.py:99-102 | a field INFO reports comes from the last line before the final one that carries its key |
| Device.ATDevice.FieldsOfAnswer | edlclient/Tools/em7455_tools.py:99-102 | INFO's result is list2dict of CMD's answer to `ATI` with its last line removed |
| Device.ATDevice.AnswerLines | edlclient/Tools/em7455_tools.py:70-73 | a response CMD returns is never empty, and its lines are stripped and non-blank |
| Device.ATDevice.constructor | edlclient/Tools/em7455_tools.py:11-18 | a new device has its port closed and has written nothing |
| Device.ATDevice.Cmd | edlclient/Tools/em7455_tools.py:65-78 | on an open port, exactly `"AT" + command + "\r"` is appended to the log. The result is the normalised answer, or a raise when nothing non-blank came back. On a closed port nothing is written and the write error comes back |
| Device.ATDevice.Test | edlclient/Tools/em7455_tools.py:80-82 | one CMD with body `cmd=?` |
| Device.ATDevice.Read | edlclient/Tools/em7455_tools.py:84-86 | one CMD with body `cmd?` |
| Device.ATDevice.Set | edlclient/Tools/em7455_tools.py:88-90 | one CMD with body `cmd=<va2str(args)>`; when va2str raises, nothing is written and its error comes back |
| Device.ATDevice.Exec | edlclient/Tools/em7455_tools.py:92-97 | `cmd=<va2str(args)>` when there are arguments (va2str's error before any write), the bare `cmd` when there are none |
| Device.ATDevice.Info | edlclient/Tools/em7455_tools.py:99-102 | writes `ATI` and returns list2dict of the answer minus its last line. On a closed port it writes nothing and returns the write error |
| Device.ATDevice.Reset | edlclient/Tools/em7455_tools.py:104-106 | writes `AT!RESET`; the answer is discarded, and only its error survives |
| Device.ATDevice.Open | edlclient/Tools/em7455_tools.py:20-33 | afterwards the port is open. An open port is left alone. Otherwise exactly `ATE0` is written, and CMD's error, if any, comes back |
| Device.ATDevice.Close | edlclient/Tools/em7455_tools.py:35-46 | afterwards the port is closed |
| EM7455.EnterCndRequest | edlclient/Tools/em7455_tools.py:111-113 | EXEC of `!ENTERCND` with the string "A710" sends the body `!ENTERCND="A710"` |
| EM7455.UnlockRequest | edlclient/Tools/em7455_tools.py:130 | EXEC of `!OPENLOCK` with the token sends the quoted token |
| EM7455.EnableAdvCmds | edlclient/Tools/em7455_tools.py:111-113 | exactly one request, `AT!ENTERCND="A710"\r`, is written; its answer only counts through CMD's error |
| EM7455.FirstFailure | edlclient/Tools/em7455_tools.py:117-120 | the first request in a range whose CMD raised lies in that range and did raise |
| EM7455.FirstFailureAnswered | edlclient/Tools/em7455_tools.py:117-120 | every request before the first failure was answered |
| EM7455.GetUSBInfo | edlclient/Tools/em7455_tools.py:115-121 | the log grows by `!ENTERCND` and then READ of `!USBVID`, `!USBPID`, `!USBPRODUCT`, `!PRIID` in order, up to and including the first request that raises. The result is that error, or the four answers concatenated |
| EM7455.UsbResultOkIff | edlclient/Tools/em7455_tools.py:115-121 | GetUSBInfo succeeds exactly when all five requests were answered; then it returns every line of the four READ answers, in order |
| EM7455.OpenLock | edlclient/Tools/em7455_tools.py:123-133 | the log grows by `!ENTERCND`, `!OPENLOCK?` and the quoted token computed from the first line of the challenge, up to and including the first request that raises. The result is that error, or the verdict on the token's answer |
| EM7455.SubmitVerdict | edlclient/Tools/em7455_tools.py:130-133 | the verdict is an error exactly when EXEC raised, and True exactly when no answer line is "ERROR" |
| EM7455.OpenLockResultIff | edlclient/Tools/em7455_tools.py:123-133 | OpenLock returns True exactly when all three requests were answered and the token's answer holds no "ERROR" line |
| EM7455.Refusal | edlclient/Tools/em7455_tools.py:153-163 | a step that stops the repair gives False on an "ERROR" line and CMD's error otherwise, and never True |
| EM7455.RepairStop | edlclient/Tools/em7455_tools.py:135-174 | the step the repair stops at lies between the given step and 7, and does not pass |
| EM7455.StepsBeforeStopPass | edlclient/Tools/em7455_tools.py:135-174 | every step before the one the repair stops at has passed |
| EM7455.RepairIMEI | edlclient/Tools/em7455_tools.py:135-174 | on a closed port nothing is written and the result is False (the bare `except` catches the write error). On an open port the log grows by the repair plan up to and including the first step that does not pass, and the result is the verdict on that step: False for a caught failure, a propagated error, or True when all seven pass |
| EM7455.RepairSucceedsIff | edlclient/Tools/em7455_tools.py:140-174 | RepairIMEI returns True exactly when every step passes. Then the new IMEI passed the Luhn check and the final INFO reports exactly that IMEI |
| EM7455.GateStopsRepair | edlclient/Tools/em7455_tools.py:140-152 | if the Luhn check does not return True, or INFO yields no IMEI, only the INFO request goes out and the result is not True. A check that raises is propagated |
| EM7455.WriteFollowsUnlock | edlclient/Tools/em7455_tools.py:150-163 | the encrypted IMEI is written only after the IMEI passed the check, OpenLock returned True and `!NVIMEIUNLOCK` was answered with no "ERROR" line |
| EM7455.RepairNeverResets | edlclient/Tools/em7455_tools.py:135-174 | no request of the repair is `AT!RESET` |
| EM7455.UnlockAndWrite | edlclient/Tools/em7455_tools.py:153-174 | the part after the Luhn check completes a run of RepairIMEI as above |
| EM7455.WriteImei | edlclient/Tools/em7455_tools.py:156-174 | after the unlock: `!NVIMEIUNLOCK`, `!NVENCRYPTIMEI=<groups>` and `ATI` go out up to the first that does not pass. The result is an "ERROR" line's False or CMD's error for the first two, False when the read-back IMEI is missing or different, and True otherwise |
| EM7455.LockFailed | edlclient/Tools/em7455_tools.py:153-155 | an OpenLock that did not return True ends the repair with OpenLock's own result |
| EM7455.LockPassed | edlclient/Tools/em7455_tools.py:153-155 | an OpenLock that returned True means steps 0 to 3 of the repair passed and their requests went out |
| Imei.Luhn | edlclient/Tools/em7455_tools.py:147-149 | the nested `luhn(n)` over the digits of `str(n)`: it returns a verdict for every non-negative `n`, and its only error is `int('-')` |
| Imei.ImeiChecksum | edlclient/Tools/em7455_tools.py:150 | `luhn(int(IMEI))`: `int()`'s error propagates unchanged, and every IMEI that `int()` reads as a non-negative number gets a verdict |
| Imei.LuhnSumIsWeighted | edlclient/Tools/em7455_tools.py:147-149 | `luhn`'s slice-and-comprehension sum equals the textbook Luhn sum over the digits read from the right, every second one doubled |
| Imei.CheckDigitIff | edlclient/Tools/em7455_tools.py:147-149 | appending a digit gives a valid number exactly when it is the payload's ISO/IEC 7812-1 check digit |
| Imei.LeadingZero | edlclient/Tools/em7455_tools.py:147-149 | a leading zero does not change the verdict |
| Imei.SingleDigitErrorDetected | edlclient/Tools/em7455_tools.py:147-149 | changing any single digit of a valid number makes it invalid |
| Imei.LuhnRaisesIff | edlclient/Tools/em7455_tools.py:147-148 | `luhn(n)` raises exactly for negative `n` (on `int('-')`) |
| Imei.LuhnOfNat | edlclient/Tools/em7455_tools.py:147-149 | `luhn(n)` for a non-negative `n` is the weighted-sum test on the digits of `str(n)` |
| Imei.ChecksumOfDigits | edlclient/Tools/em7455_tools.py:150 | `luhn(int(s))` for a digit string judges the digits as written; the leading zeros `int` drops make no difference |
| Imei.LuhnAcceptsExample | edlclient/Tools/em7455_tools.py:147-149 | the digits of 490154203237518 pass |
| Imei.LuhnRejectsExample | edlclient/Tools/em7455_tools.py:147-149 | the same digits with the last changed to 9 fail |
| Imei.DigitValuesAppend | edlclient/Tools/em7455_tools.py:148 | `[int(ch) for ch in s]` of two digit strings put together is the two digit lists put together |
| Imei.ChecksumOfBlocks | edlclient/Tools/em7455_tools.py:147-150 | `luhn(int(s))` of a 15-digit string is decided by the weighted sums of its three blocks of five digits |
| Imei.ImeiChecksumAcceptsExample | edlclient/Tools/em7455_tools.py:147-150 | `luhn(int("490154203237518"))` is True |
| Imei.ImeiChecksumRejectsExample | edlclient/Tools/em7455_tools.py:147-150 | `luhn(int("490154203237519"))` is False |
| Imei.Pairs | edlclient/Tools/em7455_tools.py:160 | `[s[i:i+2] for i in range(0, len(s), 2)]`: ceil(n/2) groups |
| Imei.PairsConcat | edlclient/Tools/em7455_tools.py:160 | the two-character groups, put back together, are the padded IMEI |
| Imei.PairsShape | edlclient/Tools/em7455_tools.py:160 | there are ceil(n/2) groups, all of two characters except a one-character last group when n is odd |
| Imei.PairsAppend | edlclient/Tools/em7455_tools.py:160 | cutting the string at an even position cuts no group in two |
| Imei.EncryptArg | edlclient/Tools/em7455_tools.py:159-161 | the `!NVENCRYPTIMEI` argument: for an IMEI without commas, the pieces between its commas are exactly the two-character groups of the IMEI padded with "0" |
| Imei.FifteenDigitArg | edlclient/Tools/em7455_tools.py:159-161 | a 15-digit IMEI goes out as eight two-character groups that spell the IMEI followed by "0" |
| Imei.EncryptArgRoundTrip | edlclient/Tools/em7455_tools.py:159-161 | the encoding loses nothing: splitting on commas, concatenating and dropping the padding digit recovers any IMEI without commas |
| Imei.EncryptArgExample | edlclient/Tools/em7455_tools.py:159-161 | 490154203237518 goes out as `49,01,54,20,32,37,51,80` |
| Text.StripIsSlice | edlclient/Tools/em7455_tools.py:71 | `strip()` keeps one contiguous slice and removes only whitespace around it |
| Text.StripIdempotent | edlclient/Tools/em7455_tools.py:71 | stripping twice is stripping once |
| Text.SplitJoin | edlclient/Tools/em7455_tools.py:160-161 | splitting a comma-join gives the parts back when no part holds a comma |
| Text.JoinSplit | edlclient/Tools/em7455_tools.py:160-161 | joining the pieces of a split with the same separator gives the string back |
| Text.ParseIntRoundTrip | edlclient/Tools/em7455_tools.py:59 | `int('%d' % i) == i` for every integer |

## Left out

- The serial port itself is not modelled. That covers pyserial, the baud rate and framing settings, the one-second timeout, `set_port`, and the UTF-8 encoding and decoding of each line. Requests and answers are strings. What the modem answers is the device's script.
- `ser.open()` and `ser.close()` raising `SerialException` are not modelled. The source only prints that error, and opening and closing are modelled as always succeeding.
- The `ender` parameter of CMD is not modelled; every caller uses the default "\r".
- `sierrakeygen.SierraGenerator().run` is not part of this model. It is the parameter `solve`, a total function assumed to return a `str`. The model does not capture:
  - an `int` token, which va2str would send in decimal without quotes;
  - a token that is neither a `str` nor an `int`, which va2str would skip, then raise;
  - an exception raised by the key generator itself.
- `print` and `pp` output, including CMD's "AT OK"/"AT ERROR" log line, is not modelled. Only the classification itself is stated, in `Codec.ClassifiedByLastLine`.
- `listCOMports`, `selectCOMport` and the command-line entry point are not modelled. They enumerate host ports and read stdin, and are not part of the modem protocol.
- `Text.ParseInt` does not model `int()` accepting underscores between digits or non-ASCII decimal digits. IMEIs are plain ASCII digit strings.
- `Imei.ImeiChecksumAcceptsExample` and `Imei.ImeiChecksumRejectsExample` take the 15-digit IMEI as three five-digit blocks, `a + b + c`, not as a single string literal.
- `EM7455.RepairIMEI` takes the IMEI as a string. The source's `str(IMEI)` conversion of other types is not modelled.
