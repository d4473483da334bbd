/**
  The decoded form of one line of sensor output (`LsmMessage`) and the way
  `json.Unmarshal` fills it: the keys present in the payload overwrite the
  attributes carrying their JSON tag, every other attribute keeps its value.
 */
module Message {
  import opened Base

  /** The seven string attributes of `LsmMessage`, in declaration order. */
  datatype LsmMessage = LsmMessage(
    etype: string,
    securityHook: string,
    path: string,
    device: string,
    inode: string,
    username: string,
    group: string)

  /** The zero value of the Go struct: every attribute is the empty string. */
  const Empty: LsmMessage := LsmMessage("", "", "", "", "", "", "")

  /** The JSON tags of the attributes, in declaration order. */
  const Tags: seq<string> := ["etype", "securityhook", "path", "device", "inode", "username", "group"]

  /** The attribute whose JSON tag is `tag`, or None when no attribute carries that tag. */
  function Get(m: LsmMessage, tag: string): (r: Option<string>)
    ensures r.Some? <==> tag in Tags
  {
    if tag == "etype" then Some(m.etype)
    else if tag == "securityhook" then Some(m.securityHook)
    else if tag == "path" then Some(m.path)
    else if tag == "device" then Some(m.device)
    else if tag == "inode" then Some(m.inode)
    else if tag == "username" then Some(m.username)
    else if tag == "group" then Some(m.group)
    else None
  }

  /** Two messages that agree on every tag are the same message. */
  lemma {:induction false} GetDetermines(a: LsmMessage, b: LsmMessage)
    requires forall t :: t in Tags ==> Get(a, t) == Get(b, t)
    ensures a == b
  {
    assert Get(a, Tags[0]) == Get(b, Tags[0]);
    assert Get(a, Tags[1]) == Get(b, Tags[1]);
    assert Get(a, Tags[2]) == Get(b, Tags[2]);
    assert Get(a, Tags[3]) == Get(b, Tags[3]);
    assert Get(a, Tags[4]) == Get(b, Tags[4]);
    assert Get(a, Tags[5]) == Get(b, Tags[5]);
    assert Get(a, Tags[6]) == Get(b, Tags[6]);
  }

  /**
    What a successful `json.Unmarshal` of a JSON object into a struct reports:
    the object's string members, keyed by member name. The decoder itself is
    a library routine and enters the model only through this result.
   */
  datatype DecodeOutcome = Decoded(keys: map<string, string>) | Malformed

  function Pick(keys: map<string, string>, tag: string, current: string): string
  {
    if tag in keys then keys[tag] else current
  }

  /**
    Unmarshalling `keys` into a copy of `prev`: a tagged key overwrites its
    attribute, a tag absent from `keys` keeps the previous value, and keys that
    are not tags are ignored.
   */
  function Overlay(prev: LsmMessage, keys: map<string, string>): (m: LsmMessage)
    ensures forall t :: Get(m, t) == if t in Tags && t in keys then Some(keys[t]) else Get(prev, t)
  {
    LsmMessage(
      Pick(keys, "etype", prev.etype),
      Pick(keys, "securityhook", prev.securityHook),
      Pick(keys, "path", prev.path),
      Pick(keys, "device", prev.device),
      Pick(keys, "inode", prev.inode),
      Pick(keys, "username", prev.username),
      Pick(keys, "group", prev.group))
  }

  /** Members of the payload that are not tags of `LsmMessage` change nothing. */
  lemma {:induction false} OverlayIgnoresUnknownKeys(prev: LsmMessage, keys: map<string, string>, extra: map<string, string>)
    requires forall k :: k in extra ==> k !in Tags
    ensures Overlay(prev, keys + extra) == Overlay(prev, keys)
  {
    forall t | t in Tags
      ensures Get(Overlay(prev, keys + extra), t) == Get(Overlay(prev, keys), t)
    {
      assert t !in extra;
    }
    GetDetermines(Overlay(prev, keys + extra), Overlay(prev, keys));
  }

  /** An object with none of the tags leaves the previous message as it was. */
  lemma {:induction false} OverlayWithoutTagsKeepsPrevious(prev: LsmMessage, keys: map<string, string>)
    requires forall k :: k in keys ==> k !in Tags
    ensures Overlay(prev, keys) == prev
  {
    forall t | t in Tags
      ensures Get(Overlay(prev, keys), t) == Get(prev, t)
    {
      assert t !in keys;
    }
    GetDetermines(Overlay(prev, keys), prev);
  }

  /** An object that carries every tag fixes the message whatever the previous one was. */
  lemma {:induction false} OverlayWithAllTagsForgetsPrevious(p1: LsmMessage, p2: LsmMessage, keys: map<string, string>)
    requires forall t :: t in Tags ==> t in keys
    ensures Overlay(p1, keys) == Overlay(p2, keys)
  {
    forall t | t in Tags
      ensures Get(Overlay(p1, keys), t) == Get(Overlay(p2, keys), t)
    {
    }
    GetDetermines(Overlay(p1, keys), Overlay(p2, keys));
  }
}
