/** `BundleAthenaBase.getKey`: the resource bundle key of a message constant.
    Each constant carries a raw key; all but the bundle's file name and its
    root are looked up under the root followed by the raw key. */
module Bundle {
  /** The raw key of `BundleFilename`. */
  const Filename: string := "bundle.athena-base"

  /** The raw key of `BundleRoot`: the artifact name and a dot. */
  const Root: string := "athena-base."

  /** `getKey`: the raw key itself for the file name and the root, the root
      followed by the raw key for every other constant. */
  function GetKey(raw: string): (key: string)
    ensures raw == Filename || raw == Root ==> key == raw
    ensures raw != Filename && raw != Root ==> |key| == |Root| + |raw| && key[..|Root|] == Root && key[|Root|..] == raw
  {
    if raw != Root && raw != Filename then Root + raw else raw
  }

  /** The file name is the one key outside the root's name space. */
  lemma OnlyFilenameUnrooted(raw: string)
    ensures GetKey(raw) == Filename || (|GetKey(raw)| >= |Root| && GetKey(raw)[..|Root|] == Root)
    ensures |GetKey(raw)| >= |Root| && GetKey(raw)[..|Root|] == Root <==> raw != Filename
  {
    assert Filename[..|Root|] != Root by {
      assert Filename[0] == 'b' && Root[0] == 'a';
    }
  }

  /** Distinct constants get distinct keys as long as no raw key is empty:
      an empty raw key would be read back as the root. */
  lemma GetKeyInjective(a: string, b: string)
    requires a != "" && b != ""
    requires GetKey(a) == GetKey(b)
    ensures a == b
  {
    OnlyFilenameUnrooted(a);
    OnlyFilenameUnrooted(b);
    if a != Filename && a != Root && b != Filename && b != Root {
      assert a == GetKey(a)[|Root|..] == GetKey(b)[|Root|..] == b;
    }
  }

  /** The empty raw key collides with the root. */
  lemma EmptyKeyIsRoot()
    ensures GetKey("") == GetKey(Root)
  {
    assert Root + "" == Root;
  }

  /** Two message keys: the root is put in front. */
  lemma SampleKeys()
    ensures GetKey("test.dummy") == Root + "test.dummy"
    ensures GetKey("class.initializing") == Root + "class.initializing"
  {
    assert "test.dummy"[0] != Root[0] && "test.dummy"[0] != Filename[0];
    assert "class.initializing"[0] != Root[0] && "class.initializing"[0] != Filename[0];
  }
}
