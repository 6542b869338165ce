/** Key enumeration of the validator (`getAllKeys`): every member of a tree
    by its full dotted path, in pre-order, descending into objects only. */
module KeyPaths {

  import opened Json

  /** The full key of a member: its key alone under the empty (falsy) prefix,
      otherwise the prefix, a dot and the key. */
  function FullKey(prefix: string, key: string): string {
    if prefix == "" then key else prefix + "." + key
  }

  /** The keys one member contributes: its own full key, then (for an object,
      not for an array) all keys below it. */
  function MemberKeys(m: Member, prefix: string): seq<string>
    decreases m
  {
    var full := FullKey(prefix, m.key);
    [full] + (if m.value.Obj? then AllKeys(m.value.members, full) else [])
  }

  function AllKeys(members: seq<Member>, prefix: string): seq<string>
    decreases members
  {
    if members == [] then []
    else AllKeys(members[..|members| - 1], prefix) + MemberKeys(members[|members| - 1], prefix)
  }

  /** `getAllKeys(obj, prefix)`, pushing onto a local list while recursing. */
  method GetAllKeys(members: seq<Member>, prefix: string) returns (keys: seq<string>)
    ensures keys == AllKeys(members, prefix)
    decreases members
  {
    keys := [];
    for i := 0 to |members|
      invariant keys == AllKeys(members[..i], prefix)
    {
      assert members[..i + 1][..i] == members[..i];
      var m := members[i];
      var fullKey := FullKey(prefix, m.key);
      keys := keys + [fullKey];
      if m.value.Obj? {
        var nested := GetAllKeys(m.value.members, fullKey);
        keys := keys + nested;
      }
    }
    assert members[..|members|] == members;
  }

  /** `ks` names a chain of members, each one but the last holding an object
      that contains the next. */
  ghost predicate IsKeyPath(members: seq<Member>, ks: seq<string>)
    decreases |ks|
  {
    && |ks| >= 1
    && exists i :: 0 <= i < |members| && members[i].key == ks[0]
                   && (|ks| == 1 || (members[i].value.Obj? && IsKeyPath(members[i].value.members, ks[1..])))
  }

  /** The text `getAllKeys` builds for the chain `ks` below `prefix`. */
  function Dotted(prefix: string, ks: seq<string>): string
    decreases |ks|
  {
    if ks == [] then prefix else Dotted(FullKey(prefix, ks[0]), ks[1..])
  }

  lemma IsKeyPathExtend(members: seq<Member>, m: Member, ks: seq<string>)
    requires IsKeyPath(members, ks)
    ensures IsKeyPath(members + [m], ks)
  {
    var i :| 0 <= i < |members| && members[i].key == ks[0]
             && (|ks| == 1 || (members[i].value.Obj? && IsKeyPath(members[i].value.members, ks[1..])));
    assert (members + [m])[i] == members[i];
  }

  /** Every key the enumeration lists is the dotted text of a chain of members. */
  lemma {:induction false} AllKeysSound(members: seq<Member>, prefix: string, k: string) returns (ks: seq<string>)
    requires k in AllKeys(members, prefix)
    ensures IsKeyPath(members, ks) && k == Dotted(prefix, ks)
    decreases members
  {
    var init := members[..|members| - 1];
    var m := members[|members| - 1];
    assert members == init + [m];
    var full := FullKey(prefix, m.key);
    if k in AllKeys(init, prefix) {
      ks := AllKeysSound(init, prefix, k);
      IsKeyPathExtend(init, m, ks);
    } else if k == full {
      ks := [m.key];
      assert members[|members| - 1].key == ks[0];
    } else {
      var below := AllKeysSound(m.value.members, full, k);
      ks := [m.key] + below;
      assert ks[1..] == below;
      assert members[|members| - 1].key == ks[0];
    }
  }

  /** Every chain of members is listed, under its dotted text. */
  lemma {:induction false} AllKeysComplete(members: seq<Member>, prefix: string, ks: seq<string>)
    requires IsKeyPath(members, ks)
    ensures Dotted(prefix, ks) in AllKeys(members, prefix)
    decreases members
  {
    var i :| 0 <= i < |members| && members[i].key == ks[0]
             && (|ks| == 1 || (members[i].value.Obj? && IsKeyPath(members[i].value.members, ks[1..])));
    var m := members[i];
    var full := FullKey(prefix, m.key);
    if |ks| == 1 {
      assert Dotted(prefix, ks) == full;
    } else {
      AllKeysComplete(m.value.members, full, ks[1..]);
    }
    assert Dotted(prefix, ks) in MemberKeys(m, prefix);
    AllKeysHasMember(members, prefix, i, Dotted(prefix, ks));
  }

  lemma {:induction false} AllKeysHasMember(members: seq<Member>, prefix: string, i: nat, k: string)
    requires i < |members| && k in MemberKeys(members[i], prefix)
    ensures k in AllKeys(members, prefix)
    decreases members
  {
    var init := members[..|members| - 1];
    if i < |members| - 1 {
      assert init[i] == members[i];
      AllKeysHasMember(init, prefix, i, k);
    }
  }
}
