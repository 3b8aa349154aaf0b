/** Model of `agent.rs`: reading a friendly OS name out of the guest agent's
    reply to `guest-get-osinfo`, or to the older `guest-get-os`. Each query is
    one call over the scripted transport of `Virsh`. */
module Agent {
  import opened Wrappers
  import opened Text
  import opened Json
  import opened Virsh

  /** The fields the newer query looks at, in order of precedence. */
  const OSINFO_KEYS: seq<string> := ["pretty-name", "pretty", "name"]

  /** The fields the older query looks at, in order of precedence. */
  const LEGACY_KEYS: seq<string> := ["pretty", "name"]

  /** The first of `keys` whose field in `v` is a string, with its position.
      Present fields of another type are passed over. */
  function FirstStrField(v: Json, keys: seq<string>): (r: Option<(nat, string)>)
    ensures r.Some? ==> r.value.0 < |keys| && StrAt(v, keys[r.value.0]) == Some(r.value.1)
    ensures r.Some? ==> forall j :: 0 <= j < r.value.0 ==> StrAt(v, keys[j]).None?
    ensures r.None? <==> forall j :: 0 <= j < |keys| ==> StrAt(v, keys[j]).None?
  {
    if |keys| == 0 then None
    else match StrAt(v, keys[0])
      case Some(s) => Some((0, s))
      case None =>
        match FirstStrField(v, keys[1..])
        case None => None
        case Some((i, s)) => Some((i + 1, s))
  }

  /** `name`, followed by a space and `version` when the version is not empty. */
  function WithVersion(name: string, version: string): (r: string)
    ensures version == [] ==> r == name
    ensures version != [] ==> |r| == |name| + 1 + |version|
    ensures StartsWith(r, name)
    ensures version != [] ==> r[|name|] == ' ' && r[|name| + 1..] == version
  {
    if version == [] then name else name + " " + version
  }

  /** The `name`/`version` branch shared by both queries: a missing or
      non-string `version` counts as empty. The name always comes first, and
      it comes alone exactly when there is no non-empty version string. */
  function NameWithVersion(ret: Json, name: string): (r: string)
    ensures StartsWith(r, name)
    ensures r == name <==> StrAt(ret, "version").GetOr("") == []
    ensures r != name ==> r[|name|] == ' ' && r[|name| + 1..] == StrAt(ret, "version").value
  {
    WithVersion(name, StrAt(ret, "version").GetOr(""))
  }

  /** What `try_guest_get_osinfo` makes of a `return` value: the first string
      among `pretty-name`, `pretty` and `name` (the last with its version),
      and the rendering of the whole value only when none of the three is a
      string. */
  function OsInfoOf(ret: Json, render: Json -> string): (r: string)
    ensures FirstStrField(ret, OSINFO_KEYS).None? ==> r == render(ret)
    ensures var f := FirstStrField(ret, OSINFO_KEYS);
            f.Some? ==> r == if f.value.0 == 2 then NameWithVersion(ret, f.value.1) else f.value.1
  {
    assert OSINFO_KEYS[1..] == ["pretty", "name"] && OSINFO_KEYS[2..] == ["name"];
    assert FirstStrField(ret, OSINFO_KEYS).None? ==>
      StrAt(ret, OSINFO_KEYS[0]).None? && StrAt(ret, OSINFO_KEYS[1]).None? && StrAt(ret, OSINFO_KEYS[2]).None?;
    match StrAt(ret, "pretty-name")
    case Some(p) => p
    case None =>
      match StrAt(ret, "pretty")
      case Some(p) => p
      case None =>
        match StrAt(ret, "name")
        case Some(n) => NameWithVersion(ret, n)
        case None => render(ret)
  }

  /** What `try_guest_get_os` makes of a `return` value: the first string
      among `pretty` and `name` (the last with its version), and nothing when
      neither is a string. */
  function LegacyOsOf(ret: Json): (r: Option<string>)
    ensures FirstStrField(ret, LEGACY_KEYS).None? <==> r.None?
    ensures var f := FirstStrField(ret, LEGACY_KEYS);
            f.Some? ==> r == Some(if f.value.0 == 1 then NameWithVersion(ret, f.value.1) else f.value.1)
  {
    assert LEGACY_KEYS[1..] == ["name"];
    assert FirstStrField(ret, LEGACY_KEYS).None? ==>
      StrAt(ret, LEGACY_KEYS[0]).None? && StrAt(ret, LEGACY_KEYS[1]).None?;
    match StrAt(ret, "pretty")
    case Some(p) => Some(p)
    case None =>
      match StrAt(ret, "name")
      case Some(n) => Some(NameWithVersion(ret, n))
      case None => None
  }

  /** The two extractions agree whenever there is no string `pretty-name`
      and the older one finds something; when the older one finds nothing,
      the newer one gives `pretty-name` or the rendering. */
  lemma OsInfoExtendsLegacy(ret: Json, render: Json -> string)
    ensures StrAt(ret, "pretty-name").None? && LegacyOsOf(ret).Some? ==> OsInfoOf(ret, render) == LegacyOsOf(ret).value
    ensures LegacyOsOf(ret).None? ==>
              OsInfoOf(ret, render) == StrAt(ret, "pretty-name").GetOr(render(ret))
  {
  }

  /** A reply whose query outcome is decided: the transport error, or the
      `return` value if there is one. */
  function ReturnIn(rs: seq<Reply>): Result<Option<Json>, Error> {
    match Receive(rs)
    case Err(e) => Err(e)
    case Ok(json) => Ok(Get(json, "return"))
  }

  /** `try_guest_get_osinfo`: one `guest-get-osinfo` call. A transport failure
      is returned as the error; no `return` gives `Ok(None)`; any `return`
      gives a name. */
  function TryGuestGetOsInfo(vm: string, timeout: nat, render: Json -> string, rs: seq<Reply>): (t: Run<Option<string>>)
    ensures t.calls == [Call(vm, GuestGetOsInfo, timeout)]
    ensures t.result.Err? <==> !Answered(rs, 0)
    ensures t.result.Ok? ==> (t.result.value.Some? <==> ReturnOf(rs[0]).Some?)
    ensures t.result.Ok? && t.result.value.Some? ==> t.result.value.value == OsInfoOf(ReturnOf(rs[0]).value, render)
  {
    var call := Call(vm, GuestGetOsInfo, timeout);
    match ReturnIn(rs)
    case Err(e) => Run(Err(e), [call])
    case Ok(None) => Run(Ok(None), [call])
    case Ok(Some(ret)) => Run(Ok(Some(OsInfoOf(ret, render))), [call])
  }

  /** `try_guest_get_os`: one `guest-get-os` call. A transport failure is
      returned as the error; the name is there exactly when the reply has a
      `return` holding a string `pretty` or `name`. */
  function TryGuestGetOs(vm: string, timeout: nat, rs: seq<Reply>): (t: Run<Option<string>>)
    ensures t.calls == [Call(vm, GuestGetOs, timeout)]
    ensures t.result.Err? <==> !Answered(rs, 0)
    ensures t.result.Ok? ==>
              (t.result.value.Some? <==>
                 ReturnOf(rs[0]).Some? && FirstStrField(ReturnOf(rs[0]).value, LEGACY_KEYS).Some?)
    ensures t.result.Ok? && t.result.value.Some? ==> t.result.value == LegacyOsOf(ReturnOf(rs[0]).value)
  {
    var call := Call(vm, GuestGetOs, timeout);
    match ReturnIn(rs)
    case Err(e) => Run(Err(e), [call])
    case Ok(None) => Run(Ok(None), [call])
    case Ok(Some(ret)) =>
      Run(Ok(LegacyOsOf(ret)), [call])
  }
}
