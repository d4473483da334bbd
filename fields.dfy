/**
  The field surface the plugin offers to the host: the table returned by
  `Fields` and the `switch` in `Extract` that resolves a field name against a
  decoded message.
 */
module Fields {
  import opened Base
  import opened Message

  /** One entry of the table handed to the host (`sdk.FieldEntry`). */
  datatype FieldEntry = FieldEntry(typ: string, name: string, desc: string)

  /** The field table, in the order the plugin declares it. */
  function Table(): seq<FieldEntry>
  {
    [ FieldEntry("string", "lsm.etype", "Type of the event"),
      FieldEntry("string", "lsm.hook", "Security hook providing this telemetry"),
      FieldEntry("string", "lsm.file.path", "Absolute path of the file in this hook"),
      FieldEntry("string", "lsm.file.device", "Device number of file in lsm.path"),
      FieldEntry("string", "lsm.file.inode", "Inode of the file in lsm.path"),
      FieldEntry("string", "lsm.user.uid", "Uid of user performing this action"),
      FieldEntry("string", "lsm.user.gid", "Gid of user performing this action") ]
  }

  /** True when `field` is the name of an entry of the table. */
  predicate Declared(field: string)
  {
    exists i :: 0 <= i < |Table()| && Table()[i].name == field
  }

  /** The `switch` on the requested field name: the attribute it selects, or None for the default branch. */
  function Select(field: string, m: LsmMessage): Option<string>
  {
    match field
    case "lsm.etype" => Some(m.etype)
    case "lsm.hook" => Some(m.securityHook)
    case "lsm.file.path" => Some(m.path)
    case "lsm.file.device" => Some(m.device)
    case "lsm.file.inode" => Some(m.inode)
    case "lsm.user.uid" => Some(m.username)
    case "lsm.user.gid" => Some(m.group)
    case _ => None
  }

  /** The seven cases of the switch, one name at a time. */
  lemma SelectCases(m: LsmMessage)
    ensures Select("lsm.etype", m) == Some(m.etype)
    ensures Select("lsm.hook", m) == Some(m.securityHook)
    ensures Select("lsm.file.path", m) == Some(m.path)
    ensures Select("lsm.file.device", m) == Some(m.device)
    ensures Select("lsm.file.inode", m) == Some(m.inode)
    ensures Select("lsm.user.uid", m) == Some(m.username)
    ensures Select("lsm.user.gid", m) == Some(m.group)
  {
  }

  /** Which JSON member feeds which host field. */
  const TagOf: map<string, string> := map[
    "lsm.etype" := "etype",
    "lsm.hook" := "securityhook",
    "lsm.file.path" := "path",
    "lsm.file.device" := "device",
    "lsm.file.inode" := "inode",
    "lsm.user.uid" := "username",
    "lsm.user.gid" := "group"]

  /** Every entry is string-typed, the seven names are distinct, and they are exactly the names `TagOf` maps. */
  lemma TableShape()
    ensures |Table()| == 7
    ensures forall i :: 0 <= i < |Table()| ==> Table()[i].typ == "string"
    ensures forall i, j :: 0 <= i < j < |Table()| ==> Table()[i].name != Table()[j].name
    ensures forall f :: Declared(f) <==> f in TagOf
  {
    forall f | f in TagOf ensures Declared(f) {
      if f == "lsm.etype" { assert Table()[0].name == f; }
      else if f == "lsm.hook" { assert Table()[1].name == f; }
      else if f == "lsm.file.path" { assert Table()[2].name == f; }
      else if f == "lsm.file.device" { assert Table()[3].name == f; }
      else if f == "lsm.file.inode" { assert Table()[4].name == f; }
      else if f == "lsm.user.uid" { assert Table()[5].name == f; }
      else { assert Table()[6].name == f; }
    }
  }

  /**
    The switch resolves a name exactly when the table declares it, and then
    gives the attribute whose JSON tag `TagOf` names.
   */
  lemma SelectFollowsTable(field: string, m: LsmMessage)
    ensures Select(field, m).Some? <==> Declared(field)
    ensures Select(field, m) == if field in TagOf then Get(m, TagOf[field]) else None
  {
    TableShape();
    SelectCases(m);
    if field !in TagOf {
      assert Select(field, m) == None;
    }
  }
}
