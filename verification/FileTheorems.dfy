/** When the positions of a file can be found, and that what is found is the file. */
module FileTheorems {
  import opened Bytes
  import opened Layout
  import opened FileContents
  import opened Files

  /** Pointer i of an index block leads to a block. */
  predicate Leads(img: bytes, index: nat, i: nat)
    requires i < 256
  {
    GetBlock(img, Pointer(img, index, i)).Ok?
  }

  /** The pointers of one index block that positions 0 .. last of its 128K need. */
  predicate IndexLeads(img: bytes, index: nat, last: nat) {
    forall i :: 0 <= i < 256 && 512 * i <= last ==> Leads(img, index, i)
  }

  /** Every pointer that positions 0 .. eof need leads to a block of the volume, or is 0. */
  predicate PointersInRange(img: bytes, entry: EntryRef)
    requires IsFileEntry(img, entry)
  {
    var key, eof := entry.KeyPointer(img), entry.Eof(img);
    GetBlock(img, key).Ok? &&
    (entry.StorageType(img) == SAPLING ==> IndexLeads(img, key, eof)) &&
    (entry.StorageType(img) == TREE ==>
      forall m :: 0 <= m < 128 && 131072 * m <= eof ==>
        Leads(img, key, m) && IndexLeads(img, Pointer(img, key, m), eof - 131072 * m))
  }

  lemma SaplingMaps(img: bytes, entry: EntryRef)
    requires IsFileEntry(img, entry) && entry.StorageType(img) == SAPLING
    ensures (forall o: nat :: o <= entry.Eof(img) ==> Locate(img, entry, o).Ok?) <==>
      PointersInRange(img, entry) && entry.Eof(img) < 131072
  {
    var key, eof := entry.KeyPointer(img), entry.Eof(img);
    if GetBlock(img, key).Ok? {
      forall o: nat | o <= eof
        ensures Locate(img, entry, o).Ok? <==> o < 131072 && Leads(img, key, o / 512)
      {
      }
      if forall o: nat :: o <= eof ==> Locate(img, entry, o).Ok? {
        forall i | 0 <= i < 256 && 512 * i <= eof ensures Leads(img, key, i) {
          assert Locate(img, entry, 512 * i).Ok?;
        }
        assert Locate(img, entry, eof).Ok?;
      }
    } else {
      assert Locate(img, entry, 0).Threw?;
    }
  }

  lemma TreePositionMaps(img: bytes, entry: EntryRef, o: nat)
    requires IsFileEntry(img, entry) && entry.StorageType(img) == TREE && o <= entry.Eof(img)
    ensures o / 131072 < 128
    ensures Locate(img, entry, o).Ok? <==>
      GetBlock(img, entry.KeyPointer(img)).Ok? && Leads(img, entry.KeyPointer(img), o / 131072) &&
      Leads(img, Pointer(img, entry.KeyPointer(img), o / 131072), o % 131072 / 512)
  {
  }

  lemma TreeMaps(img: bytes, entry: EntryRef)
    requires IsFileEntry(img, entry) && entry.StorageType(img) == TREE
    ensures (forall o: nat :: o <= entry.Eof(img) ==> Locate(img, entry, o).Ok?) <==> PointersInRange(img, entry)
  {
    var key, eof := entry.KeyPointer(img), entry.Eof(img);
    if PointersInRange(img, entry) {
      forall o: nat | o <= eof ensures Locate(img, entry, o).Ok? {
        TreePositionMaps(img, entry, o);
        assert Leads(img, key, o / 131072);
      }
    }
    if forall o: nat :: o <= eof ==> Locate(img, entry, o).Ok? {
      assert Locate(img, entry, 0).Ok?;
      TreePositionMaps(img, entry, 0);
      forall m | 0 <= m < 128 && 131072 * m <= eof
        ensures Leads(img, key, m) && IndexLeads(img, Pointer(img, key, m), eof - 131072 * m)
      {
        TreePositionMaps(img, entry, 131072 * m);
        forall i | 0 <= i < 256 && 512 * i <= eof - 131072 * m ensures Leads(img, Pointer(img, key, m), i) {
          var o := 131072 * m + 512 * i;
          TreePositionMaps(img, entry, o);
          assert o / 131072 == m && o % 131072 / 512 == i;
        }
      }
    }
  }

  /** Every seek within the file succeeds if and only if the pointers it needs are in
      range, and the file is no sapling that fills its index block: the position behind
      the last byte of a 128K sapling has no pointer. */
  lemma AllSeeksSucceedIff(img: bytes, entry: EntryRef)
    requires IsFileEntry(img, entry)
    ensures Mapped(FileMap(img, entry), 0, entry.Eof(img)) <==>
      PointersInRange(img, entry) && (entry.StorageType(img) == SAPLING ==> entry.Eof(img) < 131072)
  {
    assert Mapped(FileMap(img, entry), 0, entry.Eof(img)) <==>
      forall o: nat :: o <= entry.Eof(img) ==> Locate(img, entry, o).Ok? by {
      forall o: nat | o <= entry.Eof(img) ensures FileMap(img, entry)[o] == Locate(img, entry, o) {
      }
      if Mapped(FileMap(img, entry), 0, entry.Eof(img)) {
        forall o: nat | o <= entry.Eof(img) ensures Locate(img, entry, o).Ok? {
          assert FileMap(img, entry)[o].Ok?;
        }
      }
    }
    if entry.StorageType(img) == SAPLING {
      SaplingMaps(img, entry);
    } else if entry.StorageType(img) == TREE {
      TreeMaps(img, entry);
    } else {
      assert Locate(img, entry, 0) == GetBlock(img, entry.KeyPointer(img));
    }
  }

  /** A sapling of exactly 128K: reading `size` bytes from `start` throws if and only if it
      would end at or behind the end of file. */
  lemma FullSaplingReads(img: bytes, entry: EntryRef, start: nat, size: nat)
    requires IsFileEntry(img, entry) && entry.StorageType(img) == SAPLING
    requires PointersInRange(img, entry) && entry.Eof(img) == 131072 && start < 131072
    ensures Mapped(FileMap(img, entry), start, start + size) <==> start + size < 131072
  {
    var key, blocks := entry.KeyPointer(img), FileMap(img, entry);
    forall o: nat | o <= 131072 ensures blocks[o].Ok? <==> o < 131072 {
      assert blocks[o] == Locate(img, entry, o);
      if o < 131072 {
        assert Leads(img, key, o / 512);
      }
    }
    assert !blocks[131072].Ok?;
    if start + size < 131072 {
      forall o | start <= o <= start + size && o < |blocks| ensures blocks[o].Ok? {
        assert blocks[o as nat].Ok?;
      }
    }
  }

  /** A file whose seeks all succeed, and whose end-of-file mark its storage type can
      reach, has as its bytes exactly the data blocks laid out one after the other. */
  lemma FileIsItsContents(img: bytes, entry: EntryRef)
    requires IsFileEntry(img, entry) && EofFits(img, entry)
    requires forall o :: 0 <= o < entry.Eof(img) ==> FileMap(img, entry)[o].Ok?
    ensures FileBytes(img, entry) == Contents(img, entry)
  {
    ContentsLength(img, entry);
    forall o: nat | o < entry.Eof(img) ensures FileBytes(img, entry)[o] == Contents(img, entry)[o] {
      assert FileMap(img, entry)[o] == Locate(img, entry, o);
      LookupFindsContents(img, entry, o);
      assert FileBytes(img, entry)[o] == FileByte(img, entry, o);
    }
  }

  /** A file whose pointers are in range and whose end-of-file mark its storage type can
      reach, a 128K sapling aside. */
  predicate WellFormedFile(img: bytes, entry: EntryRef)
    requires IsFileEntry(img, entry)
  {
    PointersInRange(img, entry) && EofFits(img, entry) &&
    (entry.StorageType(img) == SAPLING ==> entry.Eof(img) < 131072)
  }

  /** So on a well-formed file no read throws, wherever it starts and however long it is,
      and what there is to read is the file laid out block after block. */
  lemma WellFormedFileReads(img: bytes, entry: EntryRef, start: nat, size: nat)
    requires IsFileEntry(img, entry) && WellFormedFile(img, entry)
    ensures Mapped(FileMap(img, entry), start, start + size)
    ensures FileBytes(img, entry) == Contents(img, entry)
  {
    AllSeeksSucceedIff(img, entry);
    FileIsItsContents(img, entry);
  }
}
