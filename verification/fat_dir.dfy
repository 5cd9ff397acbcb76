/** The root directory of a FAT16 volume (fs/fat16.c): 8.3 names, creating and deleting
    entries. */
module FatDir {
  import opened Bytes
  import opened SectorDisk
  import opened FatTable
  import opened FatVolume
  import opened FatFile

  type Text = seq<byte>

  const DOT: byte := 46
  const SPACE: byte := 32
  const ENTRY: nat := 32
  const PER_SECTOR: nat := 16
  const UNUSED: byte := 0
  const DELETED: byte := 0xE5

  // ---- names ----

  function Upper(c: byte): byte { if 97 <= c <= 122 then c - 32 else c }
  function Lower(c: byte): byte { if 65 <= c <= 90 then c + 32 else c }
  function UpperAll(s: Text): (r: Text) ensures |r| == |s| { seq(|s|, i requires 0 <= i < |s| => Upper(s[i])) }
  function LowerAll(s: Text): (r: Text) ensures |r| == |s| { seq(|s|, i requires 0 <= i < |s| => Lower(s[i])) }

  function Spaces(n: nat): (r: Text) ensures |r| == n { seq(n, i => SPACE) }

  /** Index of the first dot, or the length. */
  function FirstOf(s: Text, c: byte): (n: nat)
    ensures n <= |s| && c !in s[..n] && (n < |s| ==> s[n] == c)
  {
    if s == [] || s[0] == c then 0
    else
      var n := 1 + FirstOf(s[1..], c);
      assert s[..n] == [s[0]] + s[1..][..n - 1];
      n
  }

  function Stem(name: Text): (r: Text) ensures |r| <= 8 { name[..Min(8, FirstOf(name, DOT))] }

  /** What follows a dot that comes right behind the stem, at most three characters. */
  function Extension(name: Text): (r: Text)
    ensures |r| <= 3
  {
    var i := |Stem(name)|;
    if i < |name| && name[i] == DOT then name[i + 1..Min(i + 4, |name|)] else []
  }

  /** The 11 bytes that `fat16_to_83` stores. */
  function Name83(name: Text): (r: Text)
    ensures |r| == 11
  {
    UpperAll(Stem(name)) + Spaces(8 - |Stem(name)|) + UpperAll(Extension(name)) + Spaces(3 - |Extension(name)|)
  }

  /** Letters are stored as capitals, and nothing else changes. */
  lemma UpperMeans(c: byte)
    ensures 97 <= c <= 122 ==> Upper(c) == 65 + (c - 97)
    ensures !(97 <= c <= 122) ==> Upper(c) == c
    ensures forall d: byte :: Lower(c) == Lower(d) <==> Upper(c) == Upper(d)
  {
  }

  lemma {:induction false} FirstOfLower(a: Text, b: Text, c: byte)
    requires LowerAll(a) == LowerAll(b) && Lower(c) == c && Upper(c) == c
    ensures FirstOf(a, c) == FirstOf(b, c)
    decreases |a|
  {
    assert |a| == |LowerAll(a)| == |b|;
    if a != [] {
      assert Lower(a[0]) == LowerAll(a)[0] == LowerAll(b)[0] == Lower(b[0]);
      LowerSlice(a, b, 1, |a|);
      assert a[1..|a|] == a[1..] && b[1..|b|] == b[1..];
      FirstOfLower(a[1..], b[1..], c);
    }
  }

  lemma LowerSlice(a: Text, b: Text, lo: nat, hi: nat)
    requires LowerAll(a) == LowerAll(b) && lo <= hi <= |a|
    ensures hi <= |b| && LowerAll(a[lo..hi]) == LowerAll(b[lo..hi]) && UpperAll(a[lo..hi]) == UpperAll(b[lo..hi])
  {
    assert |a| == |LowerAll(a)| == |b|;
    forall i | lo <= i < hi ensures Lower(a[i]) == Lower(b[i]) && Upper(a[i]) == Upper(b[i]) {
      assert LowerAll(a)[i] == LowerAll(b)[i];
      UpperMeans(a[i]);
    }
  }

  /** Spellings of one name that differ in case only are stored alike. */
  lemma CaseBlind(a: Text, b: Text)
    requires LowerAll(a) == LowerAll(b)
    ensures Name83(a) == Name83(b)
  {
    assert |a| == |LowerAll(a)| == |b|;
    FirstOfLower(a, b, DOT);
    var i := |Stem(a)|;
    LowerSlice(a, b, 0, i);
    assert a[..i] == a[0..i] && b[..i] == b[0..i];
    if i < |a| {
      assert Lower(a[i]) == LowerAll(a)[i] == LowerAll(b)[i] == Lower(b[i]);
      LowerSlice(a, b, i + 1, Min(i + 4, |a|));
    }
  }

  /** `fat16_format_name`. */
  function FormatName(f: Text): Text
    requires |f| == 11
  {
    var stem, ext := f[..8], f[8..];
    LowerAll(stem[..FirstOf(stem, SPACE)])
    + if f[8] == SPACE then [] else [DOT] + LowerAll(ext[..FirstOf(ext, SPACE)])
  }

  /** `fat16_to_83`. */
  method To83(name: Text) returns (out: Text)
    ensures out == Name83(name)
  {
    out := Spaces(11);
    var i := 0;
    while i < |name| && name[i] != DOT && i < 8
      invariant 0 <= i <= |name| && i <= 8 && i <= FirstOf(name, DOT)
      invariant out == UpperAll(name[..i]) + Spaces(11 - i)
    {
      out := out[i := Upper(name[i])];
      i := i + 1;
    }
    assert name[..i] == Stem(name);
    out := PutExtension(name, i, out);
  }

  /** The second half of `fat16_to_83`. */
  method PutExtension(name: Text, dot: nat, padded: Text) returns (out: Text)
    requires dot == |Stem(name)| <= |name| && padded == UpperAll(Stem(name)) + Spaces(11 - dot)
    ensures out == Name83(name)
  {
    out := padded;
    ghost var stem := UpperAll(Stem(name)) + Spaces(8 - dot);
    assert out == stem + Spaces(3);
    if dot < |name| && name[dot] == DOT {
      var i, k := dot + 1, 8;
      while i < |name| && k < 11
        invariant dot + 1 <= i <= |name| && k == 7 + i - dot <= 11
        invariant out == stem + UpperAll(name[dot + 1..i]) + Spaces(11 - k)
      {
        out := out[k := Upper(name[i])];
        i, k := i + 1, k + 1;
      }
      assert name[dot + 1..i] == Extension(name);
    }
  }

  predicate PlainLower(s: Text) {
    forall i :: 0 <= i < |s| ==> s[i] != SPACE && !(65 <= s[i] <= 90)
  }

  /** A name that 8.3 keeps: no capitals or spaces, at most 8 characters before the first dot, and behind
      it, if there is one, 1 to 3. */
  predicate Keepable(name: Text) {
    var n := FirstOf(name, DOT);
    PlainLower(name) && n <= 8 && (n == |name| || 1 <= |name| - n - 1 <= 3)
  }

  lemma {:induction false} FirstOfBoundary(a: Text, b: Text, c: byte)
    requires c !in a && (b == [] || b[0] == c)
    ensures FirstOf(a + b, c) == |a|
  {
    if a == [] {
      assert a + b == b;
    } else {
      assert (a + b)[1..] == a[1..] + b;
      FirstOfBoundary(a[1..], b, c);
    }
  }

  lemma LowerUpper(s: Text)
    requires PlainLower(s)
    ensures LowerAll(UpperAll(s)) == s && SPACE !in UpperAll(s)
  {
  }

  /** Lower case and no spaces: what the formatting gives in any case. */
  lemma FormatPlain(f: Text)
    requires |f| == 11
    ensures PlainLower(FormatName(f))
  {
    LowerPlain(f[..8][..FirstOf(f[..8], SPACE)]);
    LowerPlain(f[8..][..FirstOf(f[8..], SPACE)]);
  }

  lemma LowerPlain(s: Text)
    requires SPACE !in s
    ensures PlainLower(LowerAll(s))
  {
    forall i | 0 <= i < |s| ensures LowerAll(s)[i] != SPACE && !(65 <= LowerAll(s)[i] <= 90) {
      assert s[i] in s;
    }
  }

  /** The stem with the extension. */
  function Parts(name: Text): Text {
    if Extension(name) == [] then Stem(name) else Stem(name) + [DOT] + Extension(name)
  }

  /** Of a name without capitals and spaces, the stem and the extension come back. */
  lemma PartsBack(name: Text)
    requires PlainLower(name)
    ensures FormatName(Name83(name)) == Parts(name)
  {
    var stem, ext := Stem(name), Extension(name);
    LowerUpper(stem);
    LowerUpper(ext);
    var s, e := UpperAll(stem), UpperAll(ext);
    assert Name83(name) == s + Spaces(8 - |s|) + e + Spaces(3 - |e|);
    FormatParts(Name83(name), s, e);
  }

  lemma FormatParts(f: Text, s: Text, e: Text)
    requires |s| <= 8 && |e| <= 3 && SPACE !in s && SPACE !in e
    requires f == s + Spaces(8 - |s|) + e + Spaces(3 - |e|)
    ensures FormatName(f) == LowerAll(s) + if e == [] then [] else [DOT] + LowerAll(e)
  {
    assert f[..8] == s + Spaces(8 - |s|) && f[8..] == e + Spaces(3 - |e|);
    FirstOfBoundary(s, Spaces(8 - |s|), SPACE);
    FirstOfBoundary(e, Spaces(3 - |e|), SPACE);
    assert (s + Spaces(8 - |s|))[..|s|] == s && (e + Spaces(3 - |e|))[..|e|] == e;
    assert e != [] ==> f[8] == e[0] && e[0] in e;
  }

  /** The parts make up the name if and only if they fit. */
  lemma PartsFit(name: Text)
    ensures var n := FirstOf(name, DOT);
      Parts(name) == name <==> n <= 8 && (n == |name| || 1 <= |name| - n - 1 <= 3)
  {
    var n := FirstOf(name, DOT);
    if n > 8 {
      assert name[8] == name[..n][8] && name[8] in name[..n];
      assert |Parts(name)| == 8;
    } else if n == |name| {
      assert name[..n] == name;
    } else {
      PartsAtDot(name, n, name[n + 1..]);
    }
  }

  /** How a name of two parts is stored: padded with spaces, without the dot. */
  lemma StoredParts(stem: Text, ext: Text, i: nat)
    requires 46 !in stem && |stem| <= 8 && |ext| <= 3 && i < 11
    ensures var f := Name83(stem + [46] + ext);
      f[i] == if i < |stem| then Upper(stem[i])
              else if 8 <= i < 8 + |ext| then Upper(ext[i - 8])
              else 32
  {
    var name := stem + [DOT] + ext;
    FirstOfBoundary(stem, [DOT] + ext, DOT);
    assert name == stem + ([DOT] + ext) && name[|stem| + 1..] == ext;
    AtDot(name, |stem|, ext);
    assert name[..|stem|] == stem && ext[..|ext|] == ext;
  }

  lemma PartsAtDot(name: Text, n: nat, rest: Text)
    requires n == FirstOf(name, DOT) <= 8 && n < |name| && rest == name[n + 1..]
    ensures Parts(name) == name <==> 1 <= |rest| <= 3
  {
    AtDot(name, n, rest);
    CutRest(name[..n], rest);
  }

  lemma AtDot(name: Text, n: nat, rest: Text)
    requires n == FirstOf(name, DOT) <= 8 && n < |name| && rest == name[n + 1..]
    ensures name == name[..n] + [DOT] + rest && Stem(name) == name[..n] && Extension(name) == rest[..Min(3, |rest|)]
  {
    SplitAt(name, n, Min(3, |rest|));
    assert Stem(name) == name[..n];
    ExtensionAt(name, n, rest);
  }

  lemma ExtensionAt(name: Text, n: nat, rest: Text)
    requires n == |Stem(name)| < |name| && name[n] == DOT && rest == name[n + 1..]
    ensures Extension(name) == rest[..Min(3, |rest|)]
  {
    var m := Min(3, |rest|);
    assert Min(n + 4, |name|) == n + 1 + m;
    assert name[n + 1..n + 1 + m] == rest[..m];
  }

  lemma SplitAt(s: Text, n: nat, k: nat)
    requires n < |s| && k <= |s| - n - 1
    ensures s == s[..n] + [s[n]] + s[n + 1..] && s[n + 1..][..k] == s[n + 1..n + 1 + k]
  {
  }

  lemma CutRest(stem: Text, rest: Text)
    ensures var ext := rest[..Min(3, |rest|)];
      (if ext == [] then stem else stem + [DOT] + ext) == stem + [DOT] + rest <==> 1 <= |rest| <= 3
  {
    var ext := rest[..Min(3, |rest|)];
    if |rest| > 3 {
      assert |stem + [DOT] + ext| < |stem + [DOT] + rest|;
    } else {
      assert ext == rest;
    }
  }

  /** Storing and showing a name gives it back if and only if 8.3 can keep it. */
  lemma NameRoundTrip(name: Text)
    ensures FormatName(Name83(name)) == name <==> Keepable(name)
  {
    FormatPlain(Name83(name));
    PartsFit(name);
    if PlainLower(name) { PartsBack(name); }
  }

  // ---- slots of the root directory ----

  function Slots(root: Text): nat { |root| / ENTRY }

  function Tag(root: Text, k: nat): byte
    requires k < Slots(root)
  {
    root[ENTRY * k]
  }

  predicate IsFree(tag: byte) { tag == UNUSED || tag == DELETED }

  function NameAt(root: Text, k: nat): (r: Text)
    requires k < Slots(root)
    ensures |r| == 11 && r[0] == Tag(root, k)
  {
    root[ENTRY * k..ENTRY * k + 11]
  }

  function StartAt(root: Text, k: nat): u16
    requires k < Slots(root)
  {
    DecodeU16(root, ENTRY * k + 26)
  }

  /** The directory entry that `fat16_create_root_entry` stores. */
  function NewEntry(name: Text, attr: byte, c: u16): (r: Text)
    ensures |r| == ENTRY
  {
    Name83(name) + [attr] + Zeros(14) + EncodeU16(c) + Zeros(4)
  }

  /** Every slot before `k` is taken. */
  ghost predicate TakenBelow(root: Text, k: nat)
    requires k <= Slots(root)
  {
    forall j :: 0 <= j < k ==> !IsFree(Tag(root, j))
  }

  /** The search of `fat16_delete_root_entry` passes slot `j`. */
  ghost predicate Passes(root: Text, f: Text, j: nat)
    requires j < Slots(root)
  {
    Tag(root, j) != UNUSED && (Tag(root, j) == DELETED || NameAt(root, j) != f)
  }

  ghost predicate PassesBelow(root: Text, f: Text, k: nat)
    requires k <= Slots(root)
  {
    forall j :: 0 <= j < k ==> Passes(root, f, j)
  }

  /** Slot `k` is the one the search finds: live, named `f`, and no unused slot or other `f` comes
      before it. */
  ghost predicate Found(root: Text, f: Text, k: nat) {
    && k < Slots(root) && PassesBelow(root, f, k)
    && !IsFree(Tag(root, k)) && NameAt(root, k) == f
  }

  ghost predicate Absent(root: Text, f: Text) {
    forall k: nat :: k < Slots(root) ==> !Found(root, f, k)
  }

  lemma FoundUnique(root: Text, f: Text, j: nat, k: nat)
    requires Found(root, f, j) && Found(root, f, k)
    ensures j == k
  {
    assert j < k ==> Passes(root, f, j);
    assert k < j ==> Passes(root, f, k);
  }

  /** Where the search stops without finding. */
  lemma StopAbsent(root: Text, f: Text, k: nat)
    requires k <= Slots(root) && PassesBelow(root, f, k) && (k < Slots(root) ==> Tag(root, k) == UNUSED)
    ensures Absent(root, f)
  {
    forall j: nat | j < Slots(root) ensures !Found(root, f, j) {
      if j < k {
        assert Passes(root, f, j);
      } else if k < j {
        assert !Passes(root, f, k);
      }
    }
  }

  /** An entry is 32 bytes: the name, the attribute at 11, the first cluster at 26, and zeros elsewhere, also for
      the size. */
  lemma EntryFields(name: Text, attr: byte, c: u16, i: nat)
    requires i < 32
    ensures var e := NewEntry(name, attr, c);
      && |e| == 32 && e[..11] == Name83(name) && e[11] == attr && e[26] == c % 256 && e[27] == c / 256
      && (12 <= i < 26 || 28 <= i ==> e[i] == 0)
  {
  }

  /** Slots follow each other every 32 bytes. */
  lemma SlotBytes(root: Text, k: nat)
    requires |root| % 32 == 0 && 32 * k < |root|
    ensures k < Slots(root) == |root| / 32 && Tag(root, k) == root[32 * k]
    ensures NameAt(root, k) == root[32 * k..32 * k + 11]
    ensures StartAt(root, k) == root[32 * k + 26] + 256 * (root[32 * k + 27] as int)
    ensures IsFree(root[32 * k]) <==> root[32 * k] == 0 || root[32 * k] == 0xE5
  {
  }

  /** Storing an entry in slot `k` touches no other slot. */
  lemma EntryStored(root: Text, k: nat, name: Text, attr: byte, c: u16)
    requires k < Slots(root)
    ensures var root' := Splice(root, ENTRY * k, NewEntry(name, attr, c));
      && NameAt(root', k) == Name83(name) && StartAt(root', k) == c
      && forall j :: 0 <= j < Slots(root) && j != k ==>
           NameAt(root', j) == NameAt(root, j) && StartAt(root', j) == StartAt(root, j)
  {
    var e := NewEntry(name, attr, c);
    var root' := Splice(root, ENTRY * k, e);
    assert root'[ENTRY * k..ENTRY * k + ENTRY] == e;
    assert NameAt(root', k) == e[..11] == Name83(name);
    assert e[26..28] == EncodeU16(c);
    assert root'[ENTRY * k + 26] == e[26] && root'[ENTRY * k + 27] == e[27];
    U16RoundTrip(c, e, 26);
  }

  lemma MarkStored(root: Text, k: nat)
    requires k < Slots(root)
    ensures var root' := Splice(root, ENTRY * k, [DELETED]);
      && Tag(root', k) == DELETED
      && forall j :: 0 <= j < Slots(root) && j != k ==>
           NameAt(root', j) == NameAt(root, j) && StartAt(root', j) == StartAt(root, j)
  {
  }

  /** A new entry is found again exactly when its name does not start with the deletion mark and no
      taken slot before it has the same name. */
  lemma NewEntryFound(root: Text, k: nat, name: Text, attr: byte, c: u16)
    requires k < Slots(root) && TakenBelow(root, k) && 0 !in name
    ensures Found(Splice(root, ENTRY * k, NewEntry(name, attr, c)), Name83(name), k)
       <==> Name83(name)[0] != DELETED && forall j :: 0 <= j < k ==> NameAt(root, j) != Name83(name)
  {
    var root', f := Splice(root, ENTRY * k, NewEntry(name, attr, c)), Name83(name);
    EntryStored(root, k, name, attr, c);
    assert f[0] != UNUSED by { FirstByte(name); }
    forall j | 0 <= j < k ensures Passes(root', f, j) <==> NameAt(root, j) != f {
      assert NameAt(root', j) == NameAt(root, j) && !IsFree(Tag(root, j));
    }
  }

  /** In an empty directory of any size, a name that is only the deletion mark is stored in a slot that
      still counts as free, and is not found. */
  lemma DeletionMarkLost(sectors: nat, c: u16)
    requires sectors > 0
    ensures Slots(Zeros(SECTOR * sectors)) == PER_SECTOR * sectors
    ensures var root := Splice(Zeros(SECTOR * sectors), 0, NewEntry([0xE5], 0, c));
      IsFree(Tag(root, 0)) && Absent(root, Name83([0xE5]))
  {
    var name: Text := [DELETED];
    assert Stem(name) == name;
    assert Name83(name)[0] == DELETED;
    EntryStored(Zeros(SECTOR * sectors), 0, name, 0, c);
  }

  lemma FirstByte(name: Text)
    requires 0 !in name
    ensures Name83(name)[0] != UNUSED
  {
    if Stem(name) != [] {
      assert name[0] in name && Stem(name)[0] == name[0];
    }
  }

  // ---- directory and chains ----

  ghost predicate Heads(ch: seq<u16>, c: u16) {
    if ch == [] then c < 2 else c == ch[0]
  }

  /** Slot `k` names the first cluster of a live file. */
  ghost predicate SlotOwned(root: Text, files: Files, owner: map<nat, nat>, k: nat)
    requires k < Slots(root)
  {
    k in owner && owner[k] in files.chains && Heads(files.chains[owner[k]], StartAt(root, k))
  }

  /** `owner` says which file each live slot names; no file has two entries. */
  ghost predicate DirOk(root: Text, files: Files, owner: map<nat, nat>) {
    && (forall k {:trigger SlotOwned(root, files, owner, k)} ::
         0 <= k < Slots(root) && !IsFree(Tag(root, k)) ==> SlotOwned(root, files, owner, k))
    && (forall k :: k in owner ==> k < Slots(root) && !IsFree(Tag(root, k)) && owner[k] in files.chains)
    && (forall j, k :: j in owner && k in owner && j != k ==> owner[j] != owner[k])
  }

  function OwnerAfterCreate(owner: map<nat, nat>, k: nat, id: nat, name: Text): map<nat, nat> {
    if Name83(name)[0] == DELETED then owner else owner[k := id]
  }

  lemma CreatedKeeps(root: Text, files: Files, owner: map<nat, nat>, k: nat, name: Text, attr: byte, c: u16)
    requires DirOk(root, files, owner) && ForestInv(files) && InTable(files.fat, c) && files.fat[c] == 0
    requires k < Slots(root) && IsFree(Tag(root, k)) && 0 !in name
    ensures ForestInv(Grown(Added(files), files.next, c))
    ensures DirOk(Splice(root, ENTRY * k, NewEntry(name, attr, c)), Grown(Added(files), files.next, c),
                  OwnerAfterCreate(owner, k, files.next, name))
  {
    assert ForestInv(Grown(Added(files), files.next, c)) by {
      AddedKeeps(files);
      GrownKeeps(Added(files), files.next, c);
    }
    var files' := Grown(Added(files), files.next, c);
    assert [] + [c] == [c];
    assert files'.chains == files.chains[files.next := []][files.next := [c]] == files.chains[files.next := [c]];
    NewSlotKeeps(root, files, files', owner, k, name, attr, c);
  }

  lemma NewSlotKeeps(root: Text, files: Files, files': Files, owner: map<nat, nat>, k: nat, name: Text, attr: byte,
                     c: u16)
    requires DirOk(root, files, owner) && forall id :: id in files.chains ==> id < files.next
    requires c >= 2 && k < Slots(root) && IsFree(Tag(root, k)) && 0 !in name
    requires files'.chains == files.chains[files.next := [c]]
    ensures DirOk(Splice(root, ENTRY * k, NewEntry(name, attr, c)), files',
                  OwnerAfterCreate(owner, k, files.next, name))
  {
    EntryStored(root, k, name, attr, c);
    FirstByte(name);
    var root', owner' := Splice(root, ENTRY * k, NewEntry(name, attr, c)), OwnerAfterCreate(owner, k, files.next, name);
    forall j | 0 <= j < Slots(root') && !IsFree(Tag(root', j)) ensures SlotOwned(root', files', owner', j) {
      if j != k {
        assert NameAt(root', j) == NameAt(root, j);
        assert SlotOwned(root, files, owner, j);
      }
    }
    forall j | j in owner' ensures j < Slots(root') && !IsFree(Tag(root', j)) && owner'[j] in files'.chains {
      assert j != k ==> NameAt(root', j) == NameAt(root, j);
    }
  }

  lemma DeletedKeeps(root: Text, files: Files, owner: map<nat, nat>, k: nat)
    requires DirOk(root, files, owner) && ForestInv(files) && k < Slots(root) && k in owner
    ensures ForestInv(Dropped(files, owner[k]))
    ensures DirOk(Splice(root, ENTRY * k, [DELETED]), Dropped(files, owner[k]), owner - {k})
  {
    assert ChainOk(files.fat, files.chains[owner[k]]);
    DroppedKeeps(files, owner[k]);
    MarkStored(root, k);
    var root', files', owner' := Splice(root, ENTRY * k, [DELETED]), Dropped(files, owner[k]), owner - {k};
    forall j | 0 <= j < Slots(root') && !IsFree(Tag(root', j)) ensures SlotOwned(root', files', owner', j) {
      assert NameAt(root', j) == NameAt(root, j);
      assert SlotOwned(root, files, owner, j);
    }
    forall j | j in owner' ensures j < Slots(root') && !IsFree(Tag(root', j)) && owner'[j] in files'.chains {
      assert NameAt(root', j) == NameAt(root, j);
    }
  }

  /** The driver never writes a first cluster back to the directory: when a file grows, the directory
      stays in step if and only if the file had a cluster before, has none still, or has no entry. */
  lemma ExtendedDirIff(root: Text, f0: Files, f1: Files, owner: map<nat, nat>, id: nat)
    requires DirOk(root, f0, owner) && Extended(f0, f1, id) && ForestInv(f1)
    ensures DirOk(root, f1, owner) <==> f0.chains[id] != [] || f1.chains[id] == [] || id !in owner.Values
  {
    forall k | 0 <= k < Slots(root) && !IsFree(Tag(root, k))
      ensures k in owner && owner[k] in f0.chains && (owner[k] != id ==> SlotOwned(root, f1, owner, k))
    {
      assert SlotOwned(root, f0, owner, k);
    }
    if f0.chains[id] != [] || f1.chains[id] == [] {
      forall k | 0 <= k < Slots(root) && !IsFree(Tag(root, k)) ensures SlotOwned(root, f1, owner, k) {
        assert SlotOwned(root, f0, owner, k);
      }
    } else if id in owner.Values {
      var k :| k in owner && owner[k] == id;
      assert SlotOwned(root, f0, owner, k);
      OnChain(f1, id, 0);
      assert !SlotOwned(root, f1, owner, k);
    }
  }

  /** A file that the directory says has no cluster gets its first one: the entry still says so, and
      deleting it frees nothing. */
  lemma FirstClusterLost(root: Text, f0: Files, owner: map<nat, nat>, k: nat, c: u16)
    requires DirOk(root, f0, owner) && ForestInv(f0) && k in owner && f0.chains[owner[k]] == []
    requires InTable(f0.fat, c) && f0.fat[c] == 0
    ensures var f1 := Grown(f0, owner[k], c);
      && ForestInv(f1) && !DirOk(root, f1, owner)
      && InRange(f1.fat) && Follows(f1.fat, StartAt(root, k)) && Freed(f1.fat, StartAt(root, k)) == f1.fat
      && f1.fat[c] != 0
  {
    assert SlotOwned(root, f0, owner, k);
    GrownKeeps(f0, owner[k], c);
    ForestInRange(Grown(f0, owner[k], c));
    GrownExtends(f0, f0, owner[k], c);
    ExtendedDirIff(root, f0, Grown(f0, owner[k], c), owner, owner[k]);
  }

  /** Such a volume, with any number of free clusters and a directory of any size: one file, without a
      cluster. */
  lemma FirstClusterFree(clusters: nat, sectors: nat, root: Text, f0: Files)
    requires 0 < clusters <= MAX_CLUSTERS && sectors > 0
    requires f0 == Files([0xFFF8, 0xFFFF] + seq(clusters, i => 0), map[0 := []], 1)
    requires root == NewEntry([65], 0x20, 0) + Zeros(SECTOR * sectors - ENTRY)
    ensures |root| == SECTOR * sectors && ForestInv(f0) && DirOk(root, f0, map[0 := 0])
    ensures InTable(f0.fat, 2) && f0.fat[2] == 0
  {
    assert f0.fat[2..] == seq(clusters, i => 0);
    AllFree(f0.fat[2..]);
    assert SumLengths(f0.chains, 1) == SumLengths(f0.chains, 0) + 0;
    OneEntry(root, NewEntry([65], 0x20, 0));
    assert Name83([65])[0] == 65;
    OnlySlot(root, f0);
  }

  lemma OneEntry(root: Text, e: Text)
    requires |e| == ENTRY <= |root| && |root| % ENTRY == 0 && root == e + Zeros(|root| - ENTRY)
    requires e == NewEntry([65], 0x20, 0)
    ensures NameAt(root, 0) == Name83([65]) && StartAt(root, 0) == 0
    ensures forall k :: 0 < k < Slots(root) ==> Tag(root, k) == UNUSED
  {
    EntryStored(root, 0, [65], 0x20, 0);
    assert Splice(root, 0, e) == root;
  }

  lemma OnlySlot(root: Text, files: Files)
    requires 0 < Slots(root) && !IsFree(Tag(root, 0)) && StartAt(root, 0) == 0 && 0 in files.chains
    requires files.chains[0] == []
    requires forall k :: 0 < k < Slots(root) ==> Tag(root, k) == UNUSED
    ensures DirOk(root, files, map[0 := 0])
  {
    assert SlotOwned(root, files, map[0 := 0], 0);
  }

  lemma {:induction false} AllFree(fat: Fat)
    requires forall i :: 0 <= i < |fat| ==> fat[i] == 0
    ensures NonZero(fat) == 0
  {
    if fat != [] { AllFree(fat[..|fat| - 1]); }
  }

  /** Freeing from the cluster in the directory entry frees exactly the chain of the file. */
  lemma FreesOwnChain(root: Text, files: Files, owner: map<nat, nat>, k: nat)
    requires DirOk(root, files, owner) && ForestInv(files) && k < Slots(root) && !IsFree(Tag(root, k))
    ensures k in owner && owner[k] in files.chains && ChainOk(files.fat, files.chains[owner[k]])
    ensures InRange(files.fat) && Follows(files.fat, StartAt(root, k))
    ensures Freed(files.fat, StartAt(root, k)) == Cleared(files.fat, files.chains[owner[k]])
  {
    assert SlotOwned(root, files, owner, k);
    var ch := files.chains[owner[k]];
    assert ChainOk(files.fat, ch);
    ForestInRange(files);
    if ch != [] {
      FreedIsCleared(files.fat, ch);
    }
  }

  /** What erasing slot `k` leaves. */
  lemma Erasable(root: Text, files: Files, owner: map<nat, nat>, k: nat) returns (files': Files)
    requires DirOk(root, files, owner) && ForestInv(files) && k < Slots(root) && !IsFree(Tag(root, k))
    ensures k in owner && owner[k] in files.chains && ChainOk(files.fat, files.chains[owner[k]])
    ensures files' == Dropped(files, owner[k]) && ForestInv(files')
    ensures DirOk(Splice(root, ENTRY * k, [DELETED]), files', owner - {k})
    ensures InRange(files.fat) && Follows(files.fat, StartAt(root, k))
    ensures Freed(files.fat, StartAt(root, k)) == files'.fat
  {
    FreesOwnChain(root, files, owner, k);
    DeletedKeeps(root, files, owner, k);
    files' := Dropped(files, owner[k]);
  }

  class RootDir {
    const fs: FatFiles
    ghost var owner: map<nat, nat>

    ghost predicate Valid()
      reads this, fs, fs.v, fs.v.disk
    {
      fs.Valid() && DirOk(fs.v.vol.root, fs.files, owner)
    }

    constructor (fs: FatFiles, ghost owner: map<nat, nat>)
      requires fs.Valid() && DirOk(fs.v.vol.root, fs.files, owner)
      ensures Valid() && this.fs == fs && this.owner == owner
    {
      this.fs, this.owner := fs, owner;
    }

    /** The first free slot. */
    method FreeSlot() returns (found: bool, sec: nat, e: nat)
      requires fs.v.Valid()
      ensures e < PER_SECTOR && TakenUpTo(fs.v.vol.root, sec, e)
      ensures if found then sec < fs.v.g.rootSectors && IsFree(Tag(fs.v.vol.root, PER_SECTOR * sec + e))
              else PER_SECTOR * sec + e == Slots(fs.v.vol.root)
    {
      found, sec, e := false, 0, 0;
      RootLength(fs.v);
      while sec < fs.v.g.rootSectors
        invariant 0 <= sec <= fs.v.g.rootSectors && TakenUpTo(fs.v.vol.root, sec, 0)
      {
        var buf := fs.v.ReadRootSector(sec);
        e := 0;
        while e < PER_SECTOR
          invariant 0 <= e <= PER_SECTOR && TakenUpTo(fs.v.vol.root, sec, e)
        {
          assert buf[ENTRY * e] == Tag(fs.v.vol.root, PER_SECTOR * sec + e);
          if IsFree(buf[ENTRY * e]) { return true, sec, e; }
          e := e + 1;
        }
        sec := sec + 1;
      }
      e := 0;
    }

    /** The search of `fat16_delete_root_entry` through one sector. */
    method SearchSector(f: Text, sec: nat) returns (found: bool, stop: bool, e: nat, start: u16)
      requires fs.v.Valid() && |f| == 11 && sec < fs.v.g.rootSectors && PassedUpTo(fs.v.vol.root, f, sec, 0)
      ensures found ==> e < PER_SECTOR && FoundWith(fs.v.vol.root, f, PER_SECTOR * sec + e, start)
      ensures !found && stop ==> Absent(fs.v.vol.root, f)
      ensures !found && !stop ==> PassedUpTo(fs.v.vol.root, f, sec + 1, 0)
    {
      found, stop, e, start := false, false, 0, 0;
      ghost var root := fs.v.vol.root;
      RootLength(fs.v);
      var buf := fs.v.ReadRootSector(sec);
      while e < PER_SECTOR
        invariant 0 <= e <= PER_SECTOR && PassedUpTo(root, f, sec, e)
      {
        SlotInSector(root, sec, e, buf);
        if buf[ENTRY * e] == UNUSED {
          StopAbsent(root, f, PER_SECTOR * sec + e);
          return false, true, e, start;
        }
        if buf[ENTRY * e] != DELETED && buf[ENTRY * e..ENTRY * e + 11] == f {
          return true, true, e, DecodeU16(buf, ENTRY * e + 26);
        }
        PassedNext(root, f, sec, e);
        e := e + 1;
      }
    }

    /** The search of `fat16_delete_root_entry`, with the first cluster it finds. */
    method Search(f: Text) returns (found: bool, sec: nat, e: nat, start: u16)
      requires fs.v.Valid() && |f| == 11
      ensures if found
              then (&& e < PER_SECTOR && sec < fs.v.g.rootSectors
                    && FoundWith(fs.v.vol.root, f, PER_SECTOR * sec + e, start))
              else Absent(fs.v.vol.root, f)
    {
      found, sec, e, start := false, 0, 0, 0;
      RootLength(fs.v);
      while sec < fs.v.g.rootSectors
        invariant 0 <= sec <= fs.v.g.rootSectors && PassedUpTo(fs.v.vol.root, f, sec, 0)
      {
        var stop;
        found, stop, e, start := SearchSector(f, sec);
        if found || stop { return; }
        sec := sec + 1;
      }
      StopAbsent(fs.v.vol.root, f, Slots(fs.v.vol.root));
      found := false;
    }

    /** `fat16_create_root_entry`: takes a cluster and the first free slot, or changes nothing. */
    method CreateRootEntry(name: Text, attr: byte) returns (c: u16, ghost k: nat)
      requires Valid() && 0 !in name
      modifies fs.v.disk, fs.v`vol, fs`files, this`owner
      ensures Valid() && |fs.v.disk.sectors| == old(|fs.v.disk.sectors|) && fs.v.vol.data == old(fs.v.vol).data
      ensures OutsideKept(fs.v.g, old(fs.v.disk.Bytes()), fs.v.disk.Bytes())
      ensures c == 0 ==> fs.v.vol == old(fs.v.vol) && fs.files == old(fs.files) && owner == old(owner)
      ensures c == 0 ==> TakenBelow(fs.v.vol.root, Slots(fs.v.vol.root)) || fs.Full()
      ensures c != 0 ==> Lowest(old(fs.files).fat, c)
      ensures c != 0 ==>
        Created(old(fs.v.vol.root), old(fs.files), old(owner), name, attr, c, k, fs.v.vol.root, fs.files, owner)
    {
      k := 0;
      c := fs.v.AllocCluster();
      if c == 0 { return; }
      var found, sec, e := FreeSlot();
      k := PER_SECTOR * sec + e;
      if found {
        StoreEntry(name, attr, c, sec, e, k);
      } else {
        fs.v.SetEntry(c, 0);
        assert fs.v.vol.fat == fs.files.fat;
        c := 0;
      }
    }

    /** Fills the free slot with the entry of a file that has just got cluster `c`. */
    method StoreEntry(name: Text, attr: byte, c: u16, sec: nat, e: nat, ghost k: nat)
      requires fs.v.Valid() && ForestInv(fs.files) && InTable(fs.files.fat, c) && fs.files.fat[c] == 0
      requires fs.v.vol.fat == fs.files.fat[c := NEW_END] && DirOk(fs.v.vol.root, fs.files, owner) && 0 !in name
      requires sec < fs.v.g.rootSectors && e < PER_SECTOR && k == PER_SECTOR * sec + e < Slots(fs.v.vol.root)
      requires IsFree(Tag(fs.v.vol.root, k))
      modifies fs.v.disk, fs.v`vol, fs`files, this`owner
      ensures Valid() && |fs.v.disk.sectors| == old(|fs.v.disk.sectors|)
      ensures OutsideKept(fs.v.g, old(fs.v.disk.Bytes()), fs.v.disk.Bytes())
      ensures fs.v.vol == old(fs.v.vol).(root := fs.v.vol.root)
      ensures fs.v.vol.root == Splice(old(fs.v.vol.root), ENTRY * k, NewEntry(name, attr, c))
      ensures fs.files == Grown(Added(old(fs.files)), old(fs.files).next, c)
      ensures owner == OwnerAfterCreate(old(owner), k, old(fs.files).next, name)
    {
      ghost var f0 := fs.files;
      CreatedKeeps(fs.v.vol.root, f0, owner, k, name, attr, c);
      var f := To83(name);
      fs.v.UpdateRoot(sec, ENTRY * e, f + [attr] + Zeros(14) + EncodeU16(c) + Zeros(4));
      fs.files := Grown(Added(f0), f0.next, c);
      owner := OwnerAfterCreate(owner, k, f0.next, name);
    }

    /** `fat16_delete_root_entry`: frees exactly the chain of the file found under the name. */
    method DeleteRootEntry(name: Text) returns (ok: bool, ghost k: nat)
      requires Valid()
      modifies fs.v.disk, fs.v`vol, fs`files, this`owner
      ensures Valid() && |fs.v.disk.sectors| == old(|fs.v.disk.sectors|) && fs.v.vol.data == old(fs.v.vol).data
      ensures OutsideKept(fs.v.g, old(fs.v.disk.Bytes()), fs.v.disk.Bytes())
      ensures !ok ==> fs.v.vol == old(fs.v.vol) && fs.files == old(fs.files) && owner == old(owner)
      ensures !ok ==> Absent(fs.v.vol.root, Name83(name))
      ensures ok ==> Deleted(old(fs.v.vol.root), old(fs.files), old(owner), name, k, fs.v.vol.root, fs.files, owner)
    {
      k := 0;
      var f := To83(name);
      var found, sec, e, start := Search(f);
      if !found { return false, k; }
      k := PER_SECTOR * sec + e;
      Erase(sec, e, start, k);
      ok := true;
    }

    /** Frees the chain of slot `k` and marks the slot as deleted. */
    method Erase(sec: nat, e: nat, start: u16, ghost k: nat)
      requires Valid() && sec < fs.v.g.rootSectors && e < PER_SECTOR && k == PER_SECTOR * sec + e < Slots(fs.v.vol.root)
      requires !IsFree(Tag(fs.v.vol.root, k)) && start == StartAt(fs.v.vol.root, k)
      modifies fs.v.disk, fs.v`vol, fs`files, this`owner
      ensures Valid() && |fs.v.disk.sectors| == old(|fs.v.disk.sectors|) && fs.v.vol.data == old(fs.v.vol).data
      ensures OutsideKept(fs.v.g, old(fs.v.disk.Bytes()), fs.v.disk.Bytes())
      ensures Erased(old(fs.v.vol.root), old(fs.files), old(owner), k, fs.v.vol.root, fs.files, owner)
    {
      ghost var files' := Erasable(fs.v.vol.root, fs.files, owner, k);
      FreeAndMark(sec, e, start, k);
      fs.files := files';
      owner := owner - {k};
    }

    method FreeAndMark(sec: nat, e: nat, start: u16, ghost k: nat)
      requires fs.v.Valid() && InRange(fs.v.vol.fat) && Follows(fs.v.vol.fat, start)
      requires sec < fs.v.g.rootSectors && e < PER_SECTOR && k == PER_SECTOR * sec + e < Slots(fs.v.vol.root)
      modifies fs.v.disk, fs.v`vol
      ensures fs.v.Valid() && |fs.v.disk.sectors| == old(|fs.v.disk.sectors|)
      ensures OutsideKept(fs.v.g, old(fs.v.disk.Bytes()), fs.v.disk.Bytes())
      ensures fs.v.vol == old(fs.v.vol).(
        fat := Freed(old(fs.v.vol).fat, start), root := Splice(old(fs.v.vol).root, ENTRY * k, [DELETED]))
    {
      fs.v.FreeChain(start);
      fs.v.UpdateRoot(sec, ENTRY * e, [DELETED]);
    }

    /** A write through an open file. The directory stays in step unless the file has an entry and gets
        its first cluster. */
    method WriteFile(n: FatNode, off: u32, buf: seq<byte>, mounted: bool) returns (w: nat)
      requires Valid() && fs.Open(n) && off + |buf| < U32_LIMIT
      modifies fs.v.disk, fs.v`vol, fs`files, n
      ensures OutsideKept(fs.v.g, old(fs.v.disk.Bytes()), fs.v.disk.Bytes())
      ensures fs.Valid() && fs.Open(n) && owner == old(owner) && fs.v.vol.root == old(fs.v.vol.root)
      ensures w <= |buf| && (if mounted then w < |buf| ==> fs.Spent(n.id, off + w) else w == 0)
      ensures n.size == if w > 0 && off + w > old(n.size) then off + w else old(n.size)
      ensures Extended(old(fs.files), fs.files, n.id)
      ensures Stored(old(fs.v.vol).data, fs.v.vol.data, fs.files.chains[n.id], ClusterSize(fs.v.g), off, buf, w)
      ensures Valid() <==> old(n.start) >= 2 || n.id !in owner.Values || !mounted || buf == [] || old(fs.Full())
    {
      ghost var f0 := fs.files;
      if n.start >= 2 { assert f0.chains[n.id] != []; } else { StartsFree(fs.files, n.id, n.start); }
      w := fs.NodeWrite(n, off, buf, mounted);
      ExtendedDirIff(fs.v.vol.root, f0, fs.files, owner, n.id);
    }

    /** Creating and then deleting a fresh name restores the table and every chain. */
    method CreateThenDelete(name: Text, attr: byte) returns (made: bool, ok: bool)
      requires Valid() && 0 !in name && Name83(name)[0] != DELETED
      requires forall j: nat :: j < Slots(fs.v.vol.root) ==> NameAt(fs.v.vol.root, j) != Name83(name)
      modifies fs.v.disk, fs.v`vol, fs`files, this`owner
      ensures Valid() && made == ok && OutsideKept(fs.v.g, old(fs.v.disk.Bytes()), fs.v.disk.Bytes())
      ensures fs.v.vol.fat == old(fs.v.vol).fat && fs.v.vol.data == old(fs.v.vol).data
      ensures fs.files.chains == old(fs.files).chains && owner == old(owner)
    {
      ghost var root, files0, owner0 := fs.v.vol.root, fs.files, owner;
      var c, k := CreateRootEntry(name, attr);
      made, ok := c != 0, c != 0;
      if made {
        ghost var j;
        NewEntryFound(root, k, name, attr, c);
        ok, j := DeleteRootEntry(name);
        if ok {
          FoundUnique(Splice(root, ENTRY * k, NewEntry(name, attr, c)), Name83(name), j, k);
          CreatedErased(root, files0, owner0, name, attr, c, k, fs.v.vol.root, fs.files, owner);
        }
      }
    }
  }

  /** A node that names no cluster belongs to a file without one. */
  lemma StartsFree(s: Files, id: nat, start: u16)
    requires ForestInv(s) && id in s.chains && start < 2 && Heads(s.chains[id], start)
    ensures s.chains[id] == []
  {
    if s.chains[id] != [] { OnChain(s, id, 0); }
  }

  /** `root'`, `files'` and `owner'` are what a successful creation leaves. */
  ghost predicate Created(root: Text, files: Files, owner: map<nat, nat>, name: Text, attr: byte, c: u16, k: nat,
                          root': Text, files': Files, owner': map<nat, nat>)
  {
    && InTable(files.fat, c) && files.fat[c] == 0
    && k < Slots(root) && TakenBelow(root, k) && IsFree(Tag(root, k))
    && root' == Splice(root, ENTRY * k, NewEntry(name, attr, c))
    && files' == Grown(Added(files), files.next, c)
    && owner' == OwnerAfterCreate(owner, k, files.next, name)
  }

  ghost predicate Deleted(root: Text, files: Files, owner: map<nat, nat>, name: Text, k: nat,
                          root': Text, files': Files, owner': map<nat, nat>)
  {
    Found(root, Name83(name), k) && Erased(root, files, owner, k, root', files', owner')
  }

  ghost predicate Erased(root: Text, files: Files, owner: map<nat, nat>, k: nat,
                         root': Text, files': Files, owner': map<nat, nat>)
  {
    && k < Slots(root) && k in owner && owner[k] in files.chains
    && ChainOk(files.fat, files.chains[owner[k]])
    && root' == Splice(root, ENTRY * k, [DELETED])
    && files' == Dropped(files, owner[k])
    && owner' == owner - {k}
  }

  /** Erasing a file right after creating it leaves the table, the chains and the directory as they
      were, up to the deletion mark in the slot. */
  lemma CreatedErased(root: Text, files: Files, owner: map<nat, nat>, name: Text, attr: byte, c: u16, k: nat,
                      root': Text, files': Files, owner': map<nat, nat>)
    requires DirOk(root, files, owner) && ForestInv(files) && Name83(name)[0] != DELETED
    requires InTable(files.fat, c) && files.fat[c] == 0 && k < Slots(root) && IsFree(Tag(root, k))
    requires Erased(Splice(root, ENTRY * k, NewEntry(name, attr, c)), Grown(Added(files), files.next, c),
                    owner[k := files.next], k, root', files', owner')
    ensures files'.fat == files.fat && files'.chains == files.chains && owner' == owner
  {
    CreateDeleteRestores(files, c);
    assert k !in owner;
    assert owner[k := files.next] - {k} == owner;
  }

  ghost predicate FoundWith(root: Text, f: Text, k: nat, start: u16) {
    Found(root, f, k) && start == StartAt(root, k)
  }

  ghost predicate PassedUpTo(root: Text, f: Text, sec: nat, e: nat) {
    PER_SECTOR * sec + e <= Slots(root) && PassesBelow(root, f, PER_SECTOR * sec + e)
  }

  lemma PassedNext(root: Text, f: Text, sec: nat, e: nat)
    requires PassedUpTo(root, f, sec, e) && PER_SECTOR * sec + e < Slots(root) && Passes(root, f, PER_SECTOR * sec + e)
    ensures PassedUpTo(root, f, sec, e + 1)
  {
  }

  lemma SlotInSector(root: Text, sec: nat, e: nat, buf: Text)
    requires e < PER_SECTOR && SECTOR * sec + SECTOR <= |root| && buf == root[SECTOR * sec..SECTOR * sec + SECTOR]
    ensures var k := PER_SECTOR * sec + e;
      && k < Slots(root) && buf[ENTRY * e] == Tag(root, k)
      && buf[ENTRY * e..ENTRY * e + 11] == NameAt(root, k) && DecodeU16(buf, ENTRY * e + 26) == StartAt(root, k)
  {
    SliceOfSlice(root, SECTOR * sec, SECTOR * sec + SECTOR, ENTRY * e, 11);
  }

  ghost predicate TakenUpTo(root: Text, sec: nat, e: nat) {
    PER_SECTOR * sec + e <= Slots(root) && TakenBelow(root, PER_SECTOR * sec + e)
  }

  lemma RootLength(v: Volume)
    requires v.Valid()
    ensures |v.vol.root| == SECTOR * v.g.rootSectors && Slots(v.vol.root) == PER_SECTOR * v.g.rootSectors
  {
    assert HoldsRoot(v.disk.Bytes(), v.g, v.vol.root);
  }
}
