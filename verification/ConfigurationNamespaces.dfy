/** The tags of the configuration store: the keys they stand for, and which of them are independent. */
module ConfigurationNamespaces {
  import opened ConfigurationText
  import opened ConfigurationDocument
  import opened ConfigurationUpdate
  import opened ConfigurationStore

  /**
   A tag and a key are stored under the tag, an underscore unless the tag ends in one, and the key;
   a request without tag is one for MAINBOARD.
   */
  lemma KeyOfTag(disk: Disk, readable: bool, tag: text, key: text)
    ensures tag == [] ==>
            Answer(disk, readable, tag, key) ==
            Get(Parse(Read(disk, readable)), [77, 65, 73, 78, 66, 79, 65, 82, 68, 95] + key)
    ensures tag != [] && tag[|tag| - 1] != 95 ==>
            Answer(disk, readable, tag, key) == Get(Parse(Read(disk, readable)), tag + [95] + key)
    ensures tag != [] && tag[|tag| - 1] == 95 ==>
            Answer(disk, readable, tag, key) == Get(Parse(Read(disk, readable)), tag + key)
  {
    hide Get, Parse, Read;
    assert MAINBOARD + [95] == [77, 65, 73, 78, 66, 79, 65, 82, 68, 95];
  }

  predicate SimpleTag(tag: text) { tag != [] && UNDERSCORE !in tag }

  /** Simple tags and keys are stored under the same key exactly when both are the same. */
  lemma NamespacesDisjoint(tag: text, key: text, tag': text, key': text)
    requires SimpleTag(tag) && SimpleTag(tag')
    ensures Same(FullKey(tag, key), FullKey(tag', key')) <==> Same(tag, tag') && Same(key, key')
  {
    var a, b := tag + [UNDERSCORE] + key, tag' + [UNDERSCORE] + key';
    FoldedKey(tag, key);
    FoldedKey(tag', key');
    FoldKeepsUnderscore(tag);
    FoldKeepsUnderscore(tag');
    if Same(a, b) {
      FindIs(Fold(tag), UNDERSCORE, Fold(key));
      FindIs(Fold(tag'), UNDERSCORE, Fold(key'));
      var n := |tag|;
      assert Fold(a)[..n] == Fold(tag) && Fold(a)[n + 1..] == Fold(key);
      assert Fold(b)[..n] == Fold(tag') && Fold(b)[n + 1..] == Fold(key');
    }
  }

  lemma FoldedKey(tag: text, key: text)
    ensures Fold(tag + [UNDERSCORE] + key) == Fold(tag) + [UNDERSCORE] + Fold(key)
  {
    FoldAppend(tag + [UNDERSCORE], key);
    FoldAppend(tag, [UNDERSCORE]);
    var u: text := [UNDERSCORE];
    assert u[1..] == [];
  }

  lemma FoldKeepsUnderscore(tag: text)
    ensures UNDERSCORE in Fold(tag) <==> UNDERSCORE in tag
  {
    FoldAt(tag);
    if UNDERSCORE in tag {
      var i :| 0 <= i < |tag| && tag[i] == UNDERSCORE;
      assert Fold(tag)[i] == UNDERSCORE;
    }
  }

  /** With an underscore in a tag two different settings can share a key: A with B_C, and A_B with C. */
  lemma NamespacesCollide()
    ensures FullKey([65], [66, 95, 67]) == FullKey([65, 95, 66], [67])
  {
    assert FullKey([65], [66, 95, 67]) == [65, 95, 66, 95, 67] == FullKey([65, 95, 66], [67]);
  }

  /** An accepted update of a simple tag changes no other setting of a simple tag. */
  lemma OtherSettingsStay(disk: Disk, tag: text, key: text, value: text, io: Io, tag': text, key': text)
    requires SimpleTag(tag) && SimpleTag(tag') && !(Same(tag, tag') && Same(key, key'))
    requires Survives(FullKey(tag, key), value)
    ensures var r := SetRawKey(disk, FullKey(tag, key), value, io);
            r.ok ==> Answer(r.disk, true, tag', key') == Answer(disk, io.readable, tag', key')
  {
    hide Answer, SetRawKey, Survives, FullKey;
    SetThenGetExactly(disk, tag, key, value, io);
    NamespacesDisjoint(tag, key, tag', key');
  }
}
