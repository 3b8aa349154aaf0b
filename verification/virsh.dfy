/** Model of `virsh.rs`: the guest-agent transport seen as a script of
    replies, the guest-file handle protocol of `ga_read_file` and
    `ga_write_file`, and the line filter of `list_vms`.

    Every call to `virsh_qemu_agent` takes the next reply of a script: an
    operation is given the replies its calls will receive, in order, and
    returns its outcome together with the calls it made. A script that has
    run out answers with `NoReply`, a transport failure like any other. */
module Virsh {
  import opened Wrappers
  import opened Text
  import opened Json

  newtype byte = b: int | 0 <= b < 256

  /** Timeout, in seconds, that every file-transfer call passes to `virsh`. */
  const FILE_TIMEOUT: nat := 10

  /** Bytes asked for by each `guest-file-read` and carried by each `guest-file-write`. */
  const CHUNK_SIZE: nat := 4096

  datatype Error =
    | Transport(msg: string)  // `virsh` could not start, exited non-zero, or printed no JSON
    | NoReply                 // the scripted transport has no reply left
    | NoHandle                // "Failed to get file handle"
    | NoReturn                // "No return in guest-file-read"
    | NoBuffer                // "No buf-b64 in response"
    | BadBase64               // "base64 decode: ..."

  /** The JSON payloads sent to the guest agent. */
  datatype Command =
    | FileOpen(path: string, mode: string)
    | FileRead(handle: int, count: nat)
    | FileWrite(handle: int, bufB64: string)
    | FileClose(handle: int)
    | GuestGetOsInfo
    | GuestGetOs

  /** One `virsh qemu-agent-command --timeout <timeout> <vm> <payload>`. */
  datatype Call = Call(vm: string, cmd: Command, timeout: nat)

  /** What one `virsh` invocation produced: parsed JSON, or a failure. */
  datatype Reply = Replied(json: Json) | Failed(msg: string)

  /** The outcome of an operation and the calls it made, in order. */
  datatype Run<T> = Run(result: Result<T, Error>, calls: seq<Call>)

  /** `virsh_qemu_agent` as seen by the caller: the first scripted reply. */
  function Receive(rs: seq<Reply>): (r: Result<Json, Error>)
    ensures r.Ok? <==> |rs| > 0 && rs[0].Replied?
    ensures r.Ok? ==> r.value == rs[0].json
  {
    if |rs| == 0 then Err(NoReply)
    else match rs[0]
      case Replied(j) => Ok(j)
      case Failed(m) => Err(Transport(m))
  }

  /** The replies left for later calls once `n` calls have been made; none
      once the script is used up. */
  function After(rs: seq<Reply>, n: nat): seq<Reply> {
    if n <= |rs| then rs[n..] else []
  }

  /** The `i`-th call gets a parsed reply. */
  ghost predicate Answered(rs: seq<Reply>, i: nat) {
    i < |rs| && rs[i].Replied?
  }

  // ---------------------------------------------------------------------
  // list_vms

  /** Each line with its surrounding white space removed. */
  function TrimAll(lines: seq<string>): (r: seq<string>)
    ensures |r| == |lines| && forall i :: 0 <= i < |lines| ==> r[i] == Trim(lines[i])
  {
    seq(|lines|, i requires 0 <= i < |lines| => Trim(lines[i]))
  }

  /** The non-empty strings, in order. Of a single string it keeps nothing
      exactly when that string is empty. */
  function NonEmpty(xs: seq<string>): (r: seq<string>)
    ensures |r| <= |xs|
    ensures forall i :: 0 <= i < |r| ==> r[i] != [] && r[i] in xs
    ensures |xs| == 1 ==> (r == [] <==> xs[0] == [])
  {
    if |xs| == 0 then []
    else
      var rest := NonEmpty(xs[1..]);
      assert forall x :: x in xs[1..] ==> x in xs;
      if xs[0] == [] then rest else [xs[0]] + rest
  }

  /** `NonEmpty` keeps exactly the non-empty strings. */
  lemma {:induction false} NonEmptyMembers(xs: seq<string>)
    ensures forall x :: x in NonEmpty(xs) <==> x in xs && x != []
    decreases |xs|
  {
    if |xs| > 0 {
      NonEmptyMembers(xs[1..]);
      assert forall x :: x in xs <==> x == xs[0] || x in xs[1..];
    }
  }

  /** The filter works string by string: it distributes over concatenation.
      With what `NonEmpty` keeps of a single string, this fixes the order and
      the multiplicity of what it keeps. */
  lemma {:induction false} NonEmptyAppend(xs: seq<string>, ys: seq<string>)
    ensures NonEmpty(xs + ys) == NonEmpty(xs) + NonEmpty(ys)
    decreases |xs|
  {
    if |xs| == 0 {
      assert xs + ys == ys;
    } else {
      assert (xs + ys)[0] == xs[0] && (xs + ys)[1..] == xs[1..] + ys;
      NonEmptyAppend(xs[1..], ys);
    }
  }

  /** The name list `list_vms` builds from the stdout of `virsh list --all --name`:
      the lines with surrounding white space removed, blank ones dropped. */
  function ListVms(stdout: string): (r: seq<string>)
    ensures |r| <= |Lines(stdout)|
    ensures forall i :: 0 <= i < |r| ==> r[i] != [] && r[i] in TrimAll(Lines(stdout))
  {
    NonEmpty(TrimAll(Lines(stdout)))
  }

  /** The names listed are exactly the non-empty trimmed lines; each is its
      own trim and holds no line break. */
  lemma ListVmsNames(stdout: string)
    ensures forall x :: x in ListVms(stdout) <==> x in TrimAll(Lines(stdout)) && x != []
    ensures forall x :: x in ListVms(stdout) ==> x != [] && Trim(x) == x && '\n' !in x
  {
    var trimmed := TrimAll(Lines(stdout));
    NonEmptyMembers(trimmed);
    forall x | x in trimmed
      ensures Trim(x) == x && '\n' !in x
    {
      var i :| 0 <= i < |trimmed| && trimmed[i] == x;
      TrimIdempotent(Lines(stdout)[i]);
    }
  }

  /** Whatever the output, the names are its `\n`-separated pieces, each
      trimmed, with the empty ones dropped, in order. A `\r` before a line
      break and a final empty line, which `lines` treats specially, are
      trimmed or dropped anyway. */
  lemma ListVmsOfText(stdout: string)
    ensures ListVms(stdout) == NonEmpty(TrimAll(Split(stdout, '\n')))
  {
    var pieces := Split(stdout, '\n');
    LinesTrimLikePieces(stdout);
    DropEmptyLast(pieces, |Lines(stdout)|);
  }

  /** Leaving out a final empty piece does not change the non-empty trims. */
  lemma DropEmptyLast(pieces: seq<string>, k: nat)
    requires k == |pieces| || (k + 1 == |pieces| && pieces[k] == "")
    ensures NonEmpty(TrimAll(pieces[..k])) == NonEmpty(TrimAll(pieces))
  {
    if k < |pieces| {
      assert pieces == pieces[..k] + [""];
      TrimAllAppend(pieces[..k], [""]);
      assert Trim("") == "" && TrimAll([""]) == [""];
      NonEmptyAppend(TrimAll(pieces[..k]), [""]);
      assert NonEmpty([""]) == [];
    } else {
      assert pieces[..k] == pieces;
    }
  }

  /** `lines` gives the `\n`-separated pieces, short of a final empty one,
      and each line trims as its piece does. */
  lemma LinesTrimLikePieces(s: string)
    ensures var pieces := Split(s, '\n');
            && |Lines(s)| == (if pieces[|pieces| - 1] == "" then |pieces| - 1 else |pieces|)
            && TrimAll(Lines(s)) == TrimAll(pieces[..|Lines(s)|])
  {
    var pieces := Split(s, '\n');
    LinesTrimEach(s);
    TrimAllAlike(Lines(s), pieces[..|Lines(s)|]);
  }

  lemma LinesTrimEach(s: string)
    ensures var pieces := Split(s, '\n');
            |Lines(s)| == (if pieces[|pieces| - 1] == "" then |pieces| - 1 else |pieces|)
    ensures forall i :: 0 <= i < |Lines(s)| ==> Trim(Lines(s)[i]) == Trim(Split(s, '\n')[i])
  {
    LinesCount(s);
    forall i | 0 <= i < |Lines(s)|
      ensures Trim(Lines(s)[i]) == Trim(Split(s, '\n')[i])
    {
      LineTrim(s, i);
    }
  }

  lemma LinesCount(s: string)
    ensures var pieces := Split(s, '\n');
            |Lines(s)| == (if pieces[|pieces| - 1] == "" then |pieces| - 1 else |pieces|)
  {
  }

  /** Line `i` trims as piece `i` does. */
  lemma LineTrim(s: string, i: nat)
    requires i < |Lines(s)|
    ensures i < |Split(s, '\n')| && Trim(Lines(s)[i]) == Trim(Split(s, '\n')[i])
  {
    LinesCount(s);
    var pieces := Split(s, '\n');
    assert Lines(s)[i] == StripCr(pieces[i]) || Lines(s)[i] == pieces[i];
    TrimStripCr(pieces[i]);
  }

  /** Strings that trim alike, position by position, trim to the same list. */
  lemma TrimAllAlike(xs: seq<string>, ys: seq<string>)
    requires |xs| == |ys|
    requires forall i :: 0 <= i < |xs| ==> Trim(xs[i]) == Trim(ys[i])
    ensures TrimAll(xs) == TrimAll(ys)
  {
  }

  lemma TrimAllAppend(xs: seq<string>, ys: seq<string>)
    ensures TrimAll(xs + ys) == TrimAll(xs) + TrimAll(ys)
  {
  }

  /** Lines joined by `\n`, blank, padded or `\r`-ended ones included, list
      as the non-empty trims of those lines, in order. */
  lemma ListVmsOfLines(ls: seq<string>)
    requires forall i :: 0 <= i < |ls| ==> '\n' !in ls[i]
    ensures ListVms(Join(ls, '\n')) == NonEmpty(TrimAll(ls))
  {
    ListVmsOfText(Join(ls, '\n'));
    if |ls| == 0 {
      assert Split("", '\n') == [""];
    } else {
      SplitJoin(ls, '\n');
    }
  }

  /** `virsh list --name` prints each name on its own line and then one
      blank line; the names come back as they are, in order. */
  lemma ListVmsOfOutput(names: seq<string>)
    requires forall i :: 0 <= i < |names| ==> IsListedName(names[i])
    ensures ListVms(Join(names + ["", ""], '\n')) == names
  {
    var ls := names + ["", ""];
    OutputLinesUnbroken(names);
    ListVmsOfLines(ls);
    TrailingBlanksDropped(names);
  }

  lemma OutputLinesUnbroken(names: seq<string>)
    requires forall i :: 0 <= i < |names| ==> IsListedName(names[i])
    ensures forall i :: 0 <= i < |names + ["", ""]| ==> '\n' !in (names + ["", ""])[i]
  {
    var ls := names + ["", ""];
    forall i | 0 <= i < |ls|
      ensures '\n' !in ls[i]
    {
      if i < |names| {
        assert ls[i] == names[i] && IsListedName(names[i]);
      }
    }
  }

  lemma TrailingBlanksDropped(names: seq<string>)
    requires forall i :: 0 <= i < |names| ==> IsListedName(names[i])
    ensures NonEmpty(TrimAll(names + ["", ""])) == names
  {
    TrimAllId(names);
    TrimAllAppend(names, ["", ""]);
    assert Trim("") == "" && TrimAll(["", ""]) == ["", ""];
    NonEmptyAppend(names, ["", ""]);
    assert NonEmpty(["", ""]) == [] by {
      NonEmptyAppend([""], [""]);
      assert NonEmpty([""]) == [];
    }
    NonEmptyAll(names);
  }

  /** A name `list_vms` can report: non-empty, on one line, with no white
      space at either end. */
  predicate IsListedName(s: string) {
    s != [] && '\n' !in s && !IsWhitespace(s[0]) && !IsWhitespace(s[|s| - 1])
  }

  /** Printing VM names one per line and listing them again gives them back,
      in order. */
  lemma ListVmsOfJoin(names: seq<string>)
    requires forall i :: 0 <= i < |names| ==> IsListedName(names[i])
    ensures ListVms(Join(names, '\n')) == names
  {
    JoinedNames(names);
    TrimAllId(names);
    NonEmptyAll(names);
  }

  lemma JoinedNames(names: seq<string>)
    requires forall i :: 0 <= i < |names| ==> IsListedName(names[i])
    ensures Lines(Join(names, '\n')) == names
  {
    assert forall i :: 0 <= i < |names| ==> '\n' !in names[i] && names[i][|names[i]| - 1] != '\r' by {
      forall i | 0 <= i < |names|
        ensures '\n' !in names[i] && names[i][|names[i]| - 1] != '\r'
      {
        assert IsListedName(names[i]);
      }
    }
    LinesOfJoin(names);
  }

  lemma TrimAllId(xs: seq<string>)
    requires forall i :: 0 <= i < |xs| ==> IsListedName(xs[i])
    ensures TrimAll(xs) == xs
  {
    forall i | 0 <= i < |xs|
      ensures Trim(xs[i]) == xs[i]
    {
      assert IsListedName(xs[i]);
      TrimOfTrimmed(xs[i]);
    }
  }

  lemma {:induction false} NonEmptyAll(xs: seq<string>)
    requires forall i :: 0 <= i < |xs| ==> IsListedName(xs[i])
    ensures NonEmpty(xs) == xs
  {
    if |xs| > 0 {
      NonEmptyAll(xs[1..]);
      assert [xs[0]] + xs[1..] == xs;
    }
  }

  // ---------------------------------------------------------------------
  // Guest-file protocol

  /** Base64 as an abstract pair; `decode` fails on malformed text. */
  datatype Codec = Codec(encode: seq<byte> -> string, decode: string -> Option<seq<byte>>)

  /** Decoding undoes encoding. */
  ghost predicate Faithful(codec: Codec) {
    forall b :: codec.decode(codec.encode(b)) == Some(b)
  }

  function OpenCall(vm: string, path: string, mode: string): Call {
    Call(vm, FileOpen(path, mode), FILE_TIMEOUT)
  }

  function ReadCall(vm: string, h: int): Call {
    Call(vm, FileRead(h, CHUNK_SIZE), FILE_TIMEOUT)
  }

  function WriteCall(vm: string, h: int, buf: string): Call {
    Call(vm, FileWrite(h, buf), FILE_TIMEOUT)
  }

  function CloseCall(vm: string, h: int): Call {
    Call(vm, FileClose(h), FILE_TIMEOUT)
  }

  /** `n` reads of handle `h`. */
  function Reads(vm: string, h: int, n: nat): (r: seq<Call>)
    ensures |r| == n && forall i :: 0 <= i < n ==> r[i] == ReadCall(vm, h)
  {
    seq(n, i => ReadCall(vm, h))
  }

  lemma ReadsCons(vm: string, h: int, n: nat)
    ensures [ReadCall(vm, h)] + Reads(vm, h, n) == Reads(vm, h, n + 1)
  {
  }

  /** A read, write or close on handle `h` of `vm`. */
  predicate OnHandle(c: Call, vm: string, h: int) {
    && c.vm == vm
    && c.timeout == FILE_TIMEOUT
    && (c.cmd.FileRead? || c.cmd.FileWrite? || c.cmd.FileClose?)
    && c.cmd.handle == h
  }

  /** The calls of one guest-file operation: the open first, then only calls
      on handle `h`, with a close at most as the last call. */
  ghost predicate OnOneHandle(calls: seq<Call>, open: Call, vm: string, h: int) {
    && |calls| >= 1
    && calls[0] == open
    && (forall i :: 1 <= i < |calls| ==> OnHandle(calls[i], vm, h))
    && (forall i :: 0 <= i < |calls| - 1 ==> !calls[i].cmd.FileClose?)
  }

  /** Open, calls on `h` that are not closes, and at most a final close form
      one guest-file operation. */
  lemma OneHandleShape(open: Call, mid: seq<Call>, vm: string, h: int, closed: bool)
    requires !open.cmd.FileClose?
    requires forall i :: 0 <= i < |mid| ==> OnHandle(mid[i], vm, h) && !mid[i].cmd.FileClose?
    ensures OnOneHandle([open] + mid + (if closed then [CloseCall(vm, h)] else []), open, vm, h)
  {
    var a := [open] + mid;
    assert forall i :: 1 <= i < |a| ==> a[i] == mid[i - 1];
    var b := a + (if closed then [CloseCall(vm, h)] else []);
    assert forall i :: 0 <= i < |a| ==> b[i] == a[i];
  }

  /** The handle the first reply carries as an integer `return`, if any. */
  function OpenedHandle(rs: seq<Reply>): Option<int> {
    if |rs| > 0 && rs[0].Replied? then IntAt(rs[0].json, "return") else None
  }

  /** `guest-file-open` and `return.as_i64()`: the handle, or the failure that
      ends the operation before anything else is sent. */
  function Open(vm: string, path: string, mode: string, rs: seq<Reply>): (o: Run<int>)
    ensures o.calls == [OpenCall(vm, path, mode)]
    ensures o.result.Ok? <==> OpenedHandle(rs).Some?
    ensures o.result.Ok? ==> o.result.value == OpenedHandle(rs).value
  {
    var call := OpenCall(vm, path, mode);
    match Receive(rs)
    case Err(e) => Run(Err(e), [call])
    case Ok(json) =>
      match IntAt(json, "return")
      case None => Run(Err(NoHandle), [call])
      case Some(h) => Run(Ok(h), [call])
  }

  /** `guest-file-close`: it succeeds exactly when the call gets a parsed
      reply, whatever the reply holds. */
  function Close(vm: string, h: int, rs: seq<Reply>): (t: Run<()>)
    ensures t.calls == [CloseCall(vm, h)]
    ensures t.result.Ok? <==> Answered(rs, 0)
  {
    match Receive(rs)
    case Err(e) => Run(Err(e), [CloseCall(vm, h)])
    case Ok(_) => Run(Ok(()), [CloseCall(vm, h)])
  }

  function ReturnOf(r: Reply): Option<Json> {
    if r.Replied? then Get(r.json, "return") else None
  }

  /** A read reply the loop accepts: a `return` whose `buf-b64` is a string
      that decodes. */
  predicate GoodChunk(codec: Codec, r: Reply) {
    && ReturnOf(r).Some?
    && StrAt(ReturnOf(r).value, "buf-b64").Some?
    && codec.decode(StrAt(ReturnOf(r).value, "buf-b64").value).Some?
  }

  function ChunkData(codec: Codec, r: Reply): seq<byte>
    requires GoodChunk(codec, r)
  {
    codec.decode(StrAt(ReturnOf(r).value, "buf-b64").value).value
  }

  /** The reply's `eof` is the boolean `true`; absent or non-boolean counts as
      not ending the stream. */
  predicate EndsStream(r: Reply) {
    ReturnOf(r).Some? && BoolAt(ReturnOf(r).value, "eof") == Some(true)
  }

  /** A run of read replies the loop consumes in full: every one a good chunk,
      the last one and no other ending the stream. */
  predicate ReadRun(codec: Codec, rs: seq<Reply>) {
    && |rs| >= 1
    && (forall i :: 0 <= i < |rs| ==> GoodChunk(codec, rs[i]))
    && (forall i :: 0 <= i < |rs| - 1 ==> !EndsStream(rs[i]))
    && EndsStream(rs[|rs| - 1])
  }

  /** The decoded data of a run of good chunks, in order. */
  function Payload(codec: Codec, rs: seq<Reply>): seq<byte>
    requires forall i :: 0 <= i < |rs| ==> GoodChunk(codec, rs[i])
  {
    if |rs| == 0 then [] else ChunkData(codec, rs[0]) + Payload(codec, rs[1..])
  }

  /** The `loop` of `ga_read_file`: read, decode, append, until `eof`. Every
      call it makes is a read of `CHUNK_SIZE` bytes on handle `h`. */
  function ReadLoop(vm: string, h: int, codec: Codec, rs: seq<Reply>): (t: Run<seq<byte>>)
    ensures |t.calls| >= 1 && t.calls == Reads(vm, h, |t.calls|)
    decreases |rs|
  {
    var call := ReadCall(vm, h);
    match Receive(rs)
    case Err(e) => Run(Err(e), [call])
    case Ok(json) =>
      match Get(json, "return")
      case None => Run(Err(NoReturn), [call])
      case Some(ret) =>
        match StrAt(ret, "buf-b64")
        case None => Run(Err(NoBuffer), [call])
        case Some(b64) =>
          match codec.decode(b64)
          case None => Run(Err(BadBase64), [call])
          case Some(chunk) =>
            if BoolAt(ret, "eof").GetOr(false) then Run(Ok(chunk), [call])
            else
              var rest := ReadLoop(vm, h, codec, rs[1..]);
              ReadsCons(vm, h, |rest.calls|);
              match rest.result
              case Err(e) => Run(Err(e), [call] + rest.calls)
              case Ok(more) => Run(Ok(chunk + more), [call] + rest.calls)
  }

  /** `ga_read_file`: open for reading, read to end of stream, close. The
      open comes first; when it yields no handle nothing else is sent; success
      needs a handle. */
  function ReadFile(vm: string, path: string, codec: Codec, rs: seq<Reply>): (t: Run<seq<byte>>)
    ensures |t.calls| >= 1 && t.calls[0] == OpenCall(vm, path, "r")
    ensures OpenedHandle(rs).None? ==> t.result.Err? && t.calls == [OpenCall(vm, path, "r")]
    ensures t.result.Ok? ==> OpenedHandle(rs).Some?
  {
    var o := Open(vm, path, "r", rs);
    match o.result
    case Err(e) => Run(Err(e), o.calls)
    case Ok(h) =>
      var loop := ReadLoop(vm, h, codec, After(rs, 1));
      match loop.result
      case Err(e) => Run(Err(e), o.calls + loop.calls)
      case Ok(content) =>
        var c := Close(vm, h, After(rs, 1 + |loop.calls|));
        match c.result
        case Err(e) => Run(Err(e), o.calls + loop.calls + c.calls)
        case Ok(_) => Run(Ok(content), o.calls + loop.calls + c.calls)
  }

  /** Once the open yields a handle, every later call of `ga_read_file`
      carries it, and a close is sent only as the last call and always ends a
      success. */
  lemma ReadFileOnOneHandle(vm: string, path: string, codec: Codec, rs: seq<Reply>)
    requires OpenedHandle(rs).Some?
    ensures OnOneHandle(ReadFile(vm, path, codec, rs).calls, OpenCall(vm, path, "r"), vm, OpenedHandle(rs).value)
    ensures var t := ReadFile(vm, path, codec, rs);
            t.result.Ok? ==> t.calls[|t.calls| - 1] == CloseCall(vm, OpenedHandle(rs).value)
  {
    var h := OpenedHandle(rs).value;
    var loop := ReadLoop(vm, h, codec, After(rs, 1));
    var closed := loop.result.Ok?;
    var t := ReadFile(vm, path, codec, rs);
    assert t.calls == [OpenCall(vm, path, "r")] + loop.calls + (if closed then [CloseCall(vm, h)] else []);
    OneHandleShape(OpenCall(vm, path, "r"), loop.calls, vm, h, closed);
  }

  /** A run of good replies ending the stream is consumed exactly: one read
      call per reply, and the data is the decoded chunks in order. */
  lemma {:induction false} ReadLoopAccepts(vm: string, h: int, codec: Codec, rs: seq<Reply>, k: nat)
    requires 1 <= k <= |rs| && ReadRun(codec, rs[..k])
    ensures ReadLoop(vm, h, codec, rs) == Run(Ok(Payload(codec, rs[..k])), Reads(vm, h, k))
    decreases k
  {
    assert rs[0] == rs[..k][0];
    assert GoodChunk(codec, rs[0]);
    if k == 1 {
      assert rs[..1] == [rs[0]];
      assert EndsStream(rs[0]);
      var ret := ReturnOf(rs[0]).value;
      assert Receive(rs) == Ok(rs[0].json);
      assert Get(rs[0].json, "return") == Some(ret);
      assert BoolAt(ret, "eof").GetOr(false);
      assert Payload(codec, []) == [];
      assert Payload(codec, rs[..1]) == ChunkData(codec, rs[0]) + [] == ChunkData(codec, rs[0]);
      assert ReadLoop(vm, h, codec, rs) == Run(Ok(ChunkData(codec, rs[0])), [ReadCall(vm, h)]);
      assert Reads(vm, h, 1) == [ReadCall(vm, h)];
    } else {
      assert !EndsStream(rs[0]);
      assert rs[1..][..k - 1] == rs[..k][1..];
      ReadLoopAccepts(vm, h, codec, rs[1..], k - 1);
      ReadsCons(vm, h, k - 1);
    }
  }

  /** Good replies that do not end the stream, followed by a missing reply or
      one the loop rejects: the loop fails right there, after exactly one read
      call more than the good replies. */
  lemma {:induction false} ReadLoopStops(vm: string, h: int, codec: Codec, rs: seq<Reply>, k: nat)
    requires k <= |rs|
    requires forall i :: 0 <= i < k ==> GoodChunk(codec, rs[i]) && !EndsStream(rs[i])
    requires k == |rs| || !GoodChunk(codec, rs[k])
    ensures ReadLoop(vm, h, codec, rs).result.Err?
    ensures ReadLoop(vm, h, codec, rs).calls == Reads(vm, h, k + 1)
    decreases k
  {
    if k == 0 {
      assert Reads(vm, h, 1) == [ReadCall(vm, h)];
    } else {
      assert GoodChunk(codec, rs[0]) && !EndsStream(rs[0]);
      ReadLoopStops(vm, h, codec, rs[1..], k - 1);
      ReadsCons(vm, h, k);
    }
  }

  /** After an open that yields handle `h` and a run of `k` read replies ending
      the stream: the calls are open, `k` reads, close; the read succeeds
      exactly when the close gets a reply, and then returns the decoded chunks
      in order. A close that fails fails the whole read although all data
      arrived. */
  lemma ReadFileAfterEof(vm: string, path: string, codec: Codec, rs: seq<Reply>, h: int, k: nat)
    requires OpenedHandle(rs) == Some(h)
    requires 1 <= k < |rs| && ReadRun(codec, rs[1..k + 1])
    ensures ReadFile(vm, path, codec, rs).calls == [OpenCall(vm, path, "r")] + Reads(vm, h, k) + [CloseCall(vm, h)]
    ensures ReadFile(vm, path, codec, rs).result.Ok? <==> Answered(rs, k + 1)
    ensures ReadFile(vm, path, codec, rs).result.Ok? ==>
              ReadFile(vm, path, codec, rs).result.value == Payload(codec, rs[1..k + 1])
  {
    assert After(rs, 1)[..k] == rs[1..k + 1];
    ReadLoopAccepts(vm, h, codec, After(rs, 1), k);
    assert Answered(After(rs, 1 + k), 0) <==> Answered(rs, k + 1);
  }

  /** After an open that yields handle `h`, `k` replies that do not end the
      stream and then a reply missing `return` or `buf-b64`, undecodable, failed
      or absent: the read fails and no close is sent. */
  lemma ReadFileFailsWithoutClose(vm: string, path: string, codec: Codec, rs: seq<Reply>, h: int, k: nat)
    requires OpenedHandle(rs) == Some(h)
    requires k < |rs|
    requires forall i :: 1 <= i <= k ==> GoodChunk(codec, rs[i]) && !EndsStream(rs[i])
    requires k + 1 == |rs| || !GoodChunk(codec, rs[k + 1])
    ensures ReadFile(vm, path, codec, rs).result.Err?
    ensures ReadFile(vm, path, codec, rs).calls == [OpenCall(vm, path, "r")] + Reads(vm, h, k + 1)
  {
    var rest := After(rs, 1);
    assert forall i :: 0 <= i < k ==> rest[i] == rs[i + 1];
    ReadLoopStops(vm, h, codec, rest, k);
  }

  /** `content.chunks(CHUNK_SIZE)`. */
  function Chunks(data: seq<byte>): (r: seq<seq<byte>>)
    ensures |r| == (|data| + CHUNK_SIZE - 1) / CHUNK_SIZE
    ensures forall i :: 0 <= i < |r| ==> 0 < |r[i]| <= CHUNK_SIZE
    ensures forall i :: 0 <= i < |r| - 1 ==> |r[i]| == CHUNK_SIZE
    ensures Flatten(r) == data
    decreases |data|
  {
    if |data| == 0 then []
    else if |data| <= CHUNK_SIZE then
      assert Flatten([data]) == data + Flatten([]);
      [data]
    else
      var r := [data[..CHUNK_SIZE]] + Chunks(data[CHUNK_SIZE..]);
      assert r[1..] == Chunks(data[CHUNK_SIZE..]);
      assert data[..CHUNK_SIZE] + data[CHUNK_SIZE..] == data;
      r
  }

  function Flatten(xs: seq<seq<byte>>): seq<byte> {
    if |xs| == 0 then [] else xs[0] + Flatten(xs[1..])
  }

  /** One write call per chunk, carrying its encoding, in order. */
  function WriteCalls(vm: string, h: int, codec: Codec, chunks: seq<seq<byte>>): (r: seq<Call>)
    ensures |r| == |chunks|
  {
    if |chunks| == 0 then [] else [WriteCall(vm, h, codec.encode(chunks[0]))] + WriteCalls(vm, h, codec, chunks[1..])
  }

  lemma {:induction false} WriteCallsAt(vm: string, h: int, codec: Codec, chunks: seq<seq<byte>>)
    ensures forall i :: 0 <= i < |chunks| ==>
              WriteCalls(vm, h, codec, chunks)[i] == WriteCall(vm, h, codec.encode(chunks[i]))
    decreases |chunks|
  {
    if |chunks| > 0 {
      WriteCallsAt(vm, h, codec, chunks[1..]);
    }
  }

  lemma WriteCallsCons(vm: string, h: int, codec: Codec, chunks: seq<seq<byte>>, n: nat)
    requires n < |chunks|
    ensures WriteCalls(vm, h, codec, chunks[..n + 1])
         == [WriteCall(vm, h, codec.encode(chunks[0]))] + WriteCalls(vm, h, codec, chunks[1..][..n])
  {
    assert chunks[..n + 1][1..] == chunks[1..][..n];
  }

  /** How many replies, from the front, are parsed ones. */
  function LeadingAnswered(rs: seq<Reply>): (n: nat)
    ensures n <= |rs|
  {
    if |rs| == 0 || rs[0].Failed? then 0 else 1 + LeadingAnswered(rs[1..])
  }

  /** The first `n` calls all get parsed replies exactly when at least `n`
      replies lead the script. */
  lemma {:induction false} LeadingAnsweredRun(rs: seq<Reply>)
    ensures forall i :: 0 <= i < LeadingAnswered(rs) ==> rs[i].Replied?
    ensures LeadingAnswered(rs) < |rs| ==> rs[LeadingAnswered(rs)].Failed?
    decreases |rs|
  {
    if |rs| > 0 && rs[0].Replied? {
      LeadingAnsweredRun(rs[1..]);
      assert forall i :: 1 <= i < |rs| ==> rs[i] == rs[1..][i - 1];
    }
  }

  /** The first `n` calls all get parsed replies exactly when at least `n`
      replies lead the script. */
  lemma LeadingAnsweredCovers(rs: seq<Reply>, n: nat)
    ensures (forall i :: 0 <= i < n ==> Answered(rs, i)) <==> n <= LeadingAnswered(rs)
  {
    var m := LeadingAnswered(rs);
    LeadingAnsweredRun(rs);
    if m < n {
      assert !Answered(rs, m);
    }
  }

  /** How many write calls the loop makes for `n` chunks: all of them when
      enough replies lead the script, else up to the first unanswered one. */
  function Tried(n: nat, rs: seq<Reply>): nat {
    var lead := LeadingAnswered(rs);
    if n <= lead then n else lead + 1
  }

  /** The `for chunk in content.chunks(..)` loop of `ga_write_file`: one write
      call per chunk, stopping right after the first call that gets no parsed
      reply; it succeeds exactly when every chunk's call got one. */
  function WriteChunks(vm: string, h: int, codec: Codec, chunks: seq<seq<byte>>, rs: seq<Reply>): (t: Run<()>)
    ensures |t.calls| == Tried(|chunks|, rs)
    ensures t.result.Ok? <==> |chunks| <= LeadingAnswered(rs)
    decreases |chunks|
  {
    if |chunks| == 0 then Run(Ok(()), [])
    else
      var call := WriteCall(vm, h, codec.encode(chunks[0]));
      match Receive(rs)
      case Err(e) => Run(Err(e), [call])
      case Ok(_) =>
        var rest := WriteChunks(vm, h, codec, chunks[1..], rs[1..]);
        Run(rest.result, [call] + rest.calls)
  }

  /** The calls the write loop sends: the write calls of the chunks it tried,
      in order. */
  lemma {:induction false} WriteChunksCalls(vm: string, h: int, codec: Codec, chunks: seq<seq<byte>>, rs: seq<Reply>)
    ensures WriteChunks(vm, h, codec, chunks, rs).calls == WriteCalls(vm, h, codec, chunks[..Tried(|chunks|, rs)])
    decreases |chunks|
  {
    if |chunks| == 0 {
      assert chunks[..0] == [];
    } else if Receive(rs).Err? {
      assert WriteCalls(vm, h, codec, chunks[..1]) == [WriteCall(vm, h, codec.encode(chunks[0]))];
    } else {
      WriteChunksCalls(vm, h, codec, chunks[1..], rs[1..]);
      var tried := Tried(|chunks| - 1, rs[1..]);
      assert Tried(|chunks|, rs) == tried + 1;
      WriteCallsCons(vm, h, codec, chunks, tried);
    }
  }

  /** `ga_write_file`: open for writing, write the chunks, close. The open
      comes first; when it yields no handle nothing else is sent; success
      needs a handle. */
  function WriteFile(vm: string, path: string, content: seq<byte>, codec: Codec, rs: seq<Reply>): (t: Run<()>)
    ensures |t.calls| >= 1 && t.calls[0] == OpenCall(vm, path, "w")
    ensures OpenedHandle(rs).None? ==> t.result.Err? && t.calls == [OpenCall(vm, path, "w")]
    ensures t.result.Ok? ==> OpenedHandle(rs).Some?
  {
    var o := Open(vm, path, "w", rs);
    match o.result
    case Err(e) => Run(Err(e), o.calls)
    case Ok(h) =>
      var loop := WriteChunks(vm, h, codec, Chunks(content), After(rs, 1));
      match loop.result
      case Err(e) => Run(Err(e), o.calls + loop.calls)
      case Ok(_) =>
        var c := Close(vm, h, After(rs, 1 + |loop.calls|));
        Run(c.result, o.calls + loop.calls + c.calls)
  }

  /** Once the open yields a handle, every later call of `ga_write_file`
      carries it, a close is sent only as the last call and always ends a
      success, and empty content is just open then close. */
  lemma WriteFileOnOneHandle(vm: string, path: string, content: seq<byte>, codec: Codec, rs: seq<Reply>)
    requires OpenedHandle(rs).Some?
    ensures OnOneHandle(WriteFile(vm, path, content, codec, rs).calls, OpenCall(vm, path, "w"), vm, OpenedHandle(rs).value)
    ensures var t := WriteFile(vm, path, content, codec, rs);
            t.result.Ok? ==> t.calls[|t.calls| - 1] == CloseCall(vm, OpenedHandle(rs).value)
    ensures content == [] ==>
              WriteFile(vm, path, content, codec, rs).calls
              == [OpenCall(vm, path, "w"), CloseCall(vm, OpenedHandle(rs).value)]
  {
    var h := OpenedHandle(rs).value;
    var chunks := Chunks(content);
    var loop := WriteChunks(vm, h, codec, chunks, After(rs, 1));
    var writeCalls := WriteCalls(vm, h, codec, chunks[..Tried(|chunks|, After(rs, 1))]);
    assert loop.calls == writeCalls by {
      WriteChunksCalls(vm, h, codec, chunks, After(rs, 1));
    }
    assert forall i :: 0 <= i < |writeCalls| ==> OnHandle(writeCalls[i], vm, h) && !writeCalls[i].cmd.FileClose? by {
      WriteCallsAt(vm, h, codec, chunks[..Tried(|chunks|, After(rs, 1))]);
    }
    var closed := loop.result.Ok?;
    var t := WriteFile(vm, path, content, codec, rs);
    assert t.calls == [OpenCall(vm, path, "w")] + writeCalls + (if closed then [CloseCall(vm, h)] else []);
    OneHandleShape(OpenCall(vm, path, "w"), writeCalls, vm, h, closed);
    assert content == [] ==> closed && writeCalls == [] by {
      if content == [] {
        assert chunks == [] && chunks[..0] == [];
      }
    }
  }

  /** After an open that yields handle `h`, when every write call gets a reply:
      the calls are open, one write per chunk carrying its encoding, in order,
      then close; the write succeeds exactly when the close gets a reply, so a
      failed close fails the write although all data was sent. */
  lemma WriteFileAllAnswered(vm: string, path: string, content: seq<byte>, codec: Codec, rs: seq<Reply>, h: int)
    requires OpenedHandle(rs) == Some(h)
    requires forall i :: 1 <= i <= |Chunks(content)| ==> Answered(rs, i)
    ensures WriteFile(vm, path, content, codec, rs).calls
         == [OpenCall(vm, path, "w")] + WriteCalls(vm, h, codec, Chunks(content)) + [CloseCall(vm, h)]
    ensures WriteFile(vm, path, content, codec, rs).result.Ok? <==> Answered(rs, |Chunks(content)| + 1)
  {
    var chunks := Chunks(content);
    var rest := After(rs, 1);
    var loop := WriteChunks(vm, h, codec, chunks, rest);
    assert loop.result.Ok? && loop.calls == WriteCalls(vm, h, codec, chunks) by {
      assert forall i :: 0 <= i < |chunks| ==> Answered(rest, i) by {
        forall i | 0 <= i < |chunks|
          ensures Answered(rest, i)
        {
          assert Answered(rs, i + 1);
        }
      }
      LeadingAnsweredCovers(rest, |chunks|);
      WriteChunksCalls(vm, h, codec, chunks, rest);
      assert chunks[..|chunks|] == chunks;
    }
    assert Answered(After(rs, 1 + |chunks|), 0) <==> Answered(rs, |chunks| + 1);
  }

  /** After an open that yields handle `h`, when the write call for chunk `k`
      fails or gets no reply: the write fails after the first `k + 1` write
      calls and no close is sent. */
  lemma WriteFileFailsWithoutClose(vm: string, path: string, content: seq<byte>, codec: Codec, rs: seq<Reply>, h: int, k: nat)
    requires OpenedHandle(rs) == Some(h)
    requires k < |Chunks(content)|
    requires forall i :: 1 <= i <= k ==> Answered(rs, i)
    requires !Answered(rs, k + 1)
    ensures WriteFile(vm, path, content, codec, rs).result.Err?
    ensures WriteFile(vm, path, content, codec, rs).calls
         == [OpenCall(vm, path, "w")] + WriteCalls(vm, h, codec, Chunks(content)[..k + 1])
  {
    var chunks := Chunks(content);
    var rest := After(rs, 1);
    assert LeadingAnswered(rest) == k by {
      assert forall i :: 0 <= i < k ==> Answered(rest, i) by {
        forall i | 0 <= i < k
          ensures Answered(rest, i)
        {
          assert Answered(rs, i + 1);
        }
      }
      assert !Answered(rest, k);
      LeadingAnsweredCovers(rest, k);
      LeadingAnsweredCovers(rest, k + 1);
    }
    WriteChunksCalls(vm, h, codec, chunks, rest);
  }

  // ---------------------------------------------------------------------
  // Round trip through a well-behaved agent

  /** What a guest applying the calls in order ends up with: the decoded
      buffers of the write calls concatenated; nothing when a buffer does not
      decode. */
  function Written(codec: Codec, calls: seq<Call>): Option<seq<byte>> {
    if |calls| == 0 then Some([])
    else
      match Written(codec, calls[1..])
      case None => None
      case Some(rest) =>
        if !calls[0].cmd.FileWrite? then Some(rest)
        else match codec.decode(calls[0].cmd.bufB64)
          case None => None
          case Some(data) => Some(data + rest)
  }

  /** What a run of calls writes is what its two halves write, in order. */
  lemma {:induction false} WrittenAppend(codec: Codec, a: seq<Call>, b: seq<Call>)
    ensures Written(codec, a + b)
         == if Written(codec, a).Some? && Written(codec, b).Some?
            then Some(Written(codec, a).value + Written(codec, b).value) else None
    decreases |a|
  {
    if |a| == 0 {
      assert a + b == b;
      assert Written(codec, a) == Some([]);
      if Written(codec, b).Some? {
        assert [] + Written(codec, b).value == Written(codec, b).value;
      }
    } else {
      assert (a + b)[0] == a[0] && (a + b)[1..] == a[1..] + b;
      WrittenAppend(codec, a[1..], b);
      if Written(codec, a[1..]).Some? && Written(codec, b).Some? && a[0].cmd.FileWrite?
         && codec.decode(a[0].cmd.bufB64).Some? {
        var data := codec.decode(a[0].cmd.bufB64).value;
        var r1 := Written(codec, a[1..]).value;
        var r2 := Written(codec, b).value;
        assert data + (r1 + r2) == (data + r1) + r2;
      }
    }
  }

  /** The write calls for some chunks write those chunks, in order. */
  lemma {:induction false} WrittenWrites(codec: Codec, vm: string, h: int, chunks: seq<seq<byte>>)
    requires Faithful(codec)
    ensures Written(codec, WriteCalls(vm, h, codec, chunks)) == Some(Flatten(chunks))
    decreases |chunks|
  {
    if |chunks| > 0 {
      var calls := WriteCalls(vm, h, codec, chunks);
      assert calls[1..] == WriteCalls(vm, h, codec, chunks[1..]);
      WrittenWrites(codec, vm, h, chunks[1..]);
    }
  }

  function HandleReply(h: int): Reply {
    Replied(Obj(map["return" := Int(h)]))
  }

  function ChunkReply(codec: Codec, data: seq<byte>, eof: bool): Reply {
    Replied(Obj(map["return" := Obj(map["buf-b64" := Str(codec.encode(data)), "eof" := Bool(eof)])]))
  }

  /** The replies a well-behaved agent gives to successive reads of a file
      holding `data`: pieces of `CHUNK_SIZE` bytes, with `eof` on the first
      short piece (an empty one when the size is a multiple of the chunk). */
  function AgentReads(codec: Codec, data: seq<byte>): seq<Reply>
    decreases |data|
  {
    if |data| < CHUNK_SIZE then [ChunkReply(codec, data, true)]
    else [ChunkReply(codec, data[..CHUNK_SIZE], false)] + AgentReads(codec, data[CHUNK_SIZE..])
  }

  lemma {:induction false} AgentReadsRun(codec: Codec, data: seq<byte>)
    requires Faithful(codec)
    ensures ReadRun(codec, AgentReads(codec, data))
    ensures Payload(codec, AgentReads(codec, data)) == data
    decreases |data|
  {
    var rs := AgentReads(codec, data);
    if |data| < CHUNK_SIZE {
      assert GoodChunk(codec, rs[0]) && ChunkData(codec, rs[0]) == data;
      assert Payload(codec, rs) == data + Payload(codec, []);
    } else {
      var head := ChunkReply(codec, data[..CHUNK_SIZE], false);
      var tail := AgentReads(codec, data[CHUNK_SIZE..]);
      AgentReadsRun(codec, data[CHUNK_SIZE..]);
      assert rs == [head] + tail;
      assert GoodChunk(codec, head) && !EndsStream(head);
      assert ChunkData(codec, head) == data[..CHUNK_SIZE];
      assert rs[1..] == tail;
      assert forall i :: 1 <= i < |rs| ==> rs[i] == tail[i - 1];
      assert data[..CHUNK_SIZE] + data[CHUNK_SIZE..] == data;
    }
  }

  /** The replies of an agent that hands out handle `h` and then answers
      `n` more calls. */
  function AgentWriteReplies(h: int, n: nat): seq<Reply> {
    [HandleReply(h)] + seq(n, i => Replied(Null))
  }

  lemma AgentWriteAnswers(h: int, n: nat)
    requires I64_MIN <= h <= I64_MAX
    ensures OpenedHandle(AgentWriteReplies(h, n)) == Some(h)
    ensures forall i :: 1 <= i <= n ==> Answered(AgentWriteReplies(h, n), i)
  {
    assert Get(HandleReply(h).json, "return") == Some(Int(h));
  }

  /** Calls that write nothing around a run of calls add nothing to what
      it writes. */
  lemma WrittenFramed(codec: Codec, open: Call, calls: seq<Call>, close: Call, data: seq<byte>)
    requires !open.cmd.FileWrite? && !close.cmd.FileWrite?
    requires Written(codec, calls) == Some(data)
    ensures Written(codec, [open] + calls + [close]) == Some(data)
  {
    assert Written(codec, [open]) == Some([]) by {
      assert [open][1..] == [];
    }
    assert Written(codec, [close]) == Some([]) by {
      assert [close][1..] == [];
    }
    WrittenAppend(codec, [open], calls);
    assert [] + data == data;
    WrittenAppend(codec, [open] + calls, [close]);
    assert data + [] == data;
  }

  /** Against an agent that answers every call, `ga_write_file` succeeds and
      what its calls write is exactly `content`. */
  lemma WriteToAgent(vm: string, path: string, content: seq<byte>, codec: Codec, h: int)
    requires Faithful(codec)
    requires I64_MIN <= h <= I64_MAX
    ensures var w := WriteFile(vm, path, content, codec, AgentWriteReplies(h, |Chunks(content)| + 1));
            w.result.Ok? && Written(codec, w.calls) == Some(content)
  {
    var chunks := Chunks(content);
    var rs := AgentWriteReplies(h, |chunks| + 1);
    var writeCalls := WriteCalls(vm, h, codec, chunks);
    var w := WriteFile(vm, path, content, codec, rs);
    assert w.result.Ok? && w.calls == [OpenCall(vm, path, "w")] + writeCalls + [CloseCall(vm, h)] by {
      AgentWriteAnswers(h, |chunks| + 1);
      WriteFileAllAnswered(vm, path, content, codec, rs, h);
    }
    assert Written(codec, writeCalls) == Some(content) by {
      WrittenWrites(codec, vm, h, chunks);
    }
    WrittenFramed(codec, OpenCall(vm, path, "w"), writeCalls, CloseCall(vm, h), content);
  }

  /** Reading a file back from an agent that holds `content` returns
      `content`. */
  lemma ReadFromAgent(vm: string, path: string, content: seq<byte>, codec: Codec, h: int)
    requires Faithful(codec)
    requires I64_MIN <= h <= I64_MAX
    ensures ReadFile(vm, path, codec, [HandleReply(h)] + AgentReads(codec, content) + [Replied(Null)]).result
         == Ok(content)
  {
    var replies := AgentReads(codec, content);
    var rs := [HandleReply(h)] + replies + [Replied(Null)];
    assert OpenedHandle(rs) == Some(h);
    AgentReadsRun(codec, content);
    assert rs[1..|replies| + 1] == replies;
    ReadFileAfterEof(vm, path, codec, rs, h, |replies|);
  }

  /** Writing `content` against an agent that answers every call, then reading
      the file back from an agent that holds what the write calls carried,
      returns `content`: chunking, encoding and the end-of-stream rule lose and
      reorder nothing. */
  lemma WriteThenRead(vm: string, path: string, content: seq<byte>, codec: Codec, h1: int, h2: int)
    requires Faithful(codec)
    requires I64_MIN <= h1 <= I64_MAX && I64_MIN <= h2 <= I64_MAX
    ensures var w := WriteFile(vm, path, content, codec, AgentWriteReplies(h1, |Chunks(content)| + 1));
            && w.result.Ok?
            && Written(codec, w.calls).Some?
            && ReadFile(vm, path, codec,
                        [HandleReply(h2)] + AgentReads(codec, Written(codec, w.calls).value) + [Replied(Null)]).result
               == Ok(content)
  {
    WriteToAgent(vm, path, content, codec, h1);
    ReadFromAgent(vm, path, content, codec, h2);
  }
}
