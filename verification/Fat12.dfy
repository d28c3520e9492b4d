// The codecs of source/kernel/vfs/fat12.c: packed table entries and 8.3 names.
module Fat12 {
  import opened CStrings

  // ---------------------------------------------------------------------------
  // Table entries

  /** The three bytes of two entries. */
  function Three(a: nat, b: nat): (bytes: seq<nat>)
    ensures |bytes| == 3
  {
    [a % 256, a / 256 + b % 16 * 16, b / 16]
  }

  /** Two entries of 12 bits in three bytes, as the FAT specification lays them out. */
  function Pack(values: seq<nat>): (bytes: seq<nat>)
    decreases |values|
    ensures |bytes| == (|values| + 1) / 2 * 3
  {
    if |values| == 0 then []
    else
      var a, b := values[0], if |values| > 1 then values[1] else 0;
      Three(a, b) + Pack(if |values| > 1 then values[2..] else [])
  }

  /** fat12_get_next_cluster: a little-endian word at one and a half times the cluster number. */
  function NextCluster(fat: seq<nat>, cluster: nat): nat
    requires cluster + cluster / 2 + 1 < |fat|
  {
    var offset := cluster + cluster / 2;
    var word := fat[offset] + 256 * fat[offset + 1];
    if cluster % 2 == 0 then word % 4096 else word / 16
  }

  lemma InTable(count: nat, cluster: nat)
    requires cluster < count
    ensures cluster + cluster / 2 + 1 < (count + 1) / 2 * 3
  {
  }

  /** Skipping three bytes skips two entries. */
  lemma NextPair(fat: seq<nat>, cluster: nat)
    requires cluster >= 2 && cluster + cluster / 2 + 1 < |fat|
    ensures (cluster - 2) + (cluster - 2) / 2 + 1 < |fat[3..]|
    ensures NextCluster(fat, cluster) == NextCluster(fat[3..], cluster - 2)
  {
  }

  lemma FirstPair(a: nat, b: nat, rest: seq<nat>)
    requires a < 4096 && b < 4096
    ensures var fat := Three(a, b) + rest;
            NextCluster(fat, 0) == a && NextCluster(fat, 1) == b
  {
  }

  /** Every entry of a packed table reads back. */
  lemma {:induction false} EntryReads(values: seq<nat>, cluster: nat)
    requires cluster < |values| && forall i :: 0 <= i < |values| ==> values[i] < 4096
    ensures cluster + cluster / 2 + 1 < |Pack(values)| && NextCluster(Pack(values), cluster) == values[cluster]
    decreases |values|
  {
    InTable(|values|, cluster);
    var a, b := values[0], if |values| > 1 then values[1] else 0;
    var rest := if |values| > 1 then values[2..] else [];
    FirstPair(a, b, Pack(rest));
    if cluster >= 2 {
      hide NextCluster;
      NextPair(Pack(values), cluster);
      assert Pack(values)[3..] == Pack(rest);
      EntryReads(rest, cluster - 2);
    }
  }

  /** The entries of a table of n groups of three bytes. */
  function Entries(fat: seq<nat>): (values: seq<nat>)
    requires |fat| % 3 == 0
    ensures |values| == |fat| / 3 * 2
  {
    seq(|fat| / 3 * 2, c requires 0 <= c < |fat| / 3 * 2 => InGroups(|fat|, c); NextCluster(fat, c))
  }

  lemma InGroups(n: nat, c: nat)
    requires n % 3 == 0 && c < n / 3 * 2
    ensures c + c / 2 + 1 < n
  {
  }

  lemma PairBytes(x: nat, y: nat, z: nat, rest: seq<nat>)
    requires x < 256 && y < 256 && z < 256
    ensures var fat := [x, y, z] + rest;
            var a, b := NextCluster(fat, 0), NextCluster(fat, 1);
            a < 4096 && b < 4096 && Three(a, b) == [x, y, z]
  {
    var q, r := y / 16, y % 16;
    Nibbles(x, q, r, z);
  }

  /** The middle byte of three gives its low half to one entry and its high half to the other. */
  lemma Nibbles(x: nat, q: nat, r: nat, z: nat)
    requires x < 256 && q < 16 && r < 16 && z < 256
    ensures (x + 256 * (16 * q + r)) % 4096 == x + 256 * r && (16 * q + r + 256 * z) / 16 == q + 16 * z
    ensures (x + 256 * r) % 256 == x && (x + 256 * r) / 256 == r && (q + 16 * z) % 16 == q && (q + 16 * z) / 16 == z
  {
    assert x + 256 * (16 * q + r) == 4096 * q + (x + 256 * r);
  }

  /** Nothing else is in the table: its entries determine its bytes. */
  lemma {:induction false} EntriesPack(fat: seq<nat>)
    requires |fat| % 3 == 0 && forall i :: 0 <= i < |fat| ==> fat[i] < 256
    ensures Pack(Entries(fat)) == fat
    decreases |fat|
  {
    hide NextCluster, Pack, Entries, Three;
    if |fat| == 0 {
      PackNone(fat);
    } else {
      var rest := fat[3..];
      EntriesPack(rest);
      PairBytes(fat[0], fat[1], fat[2], rest);
      assert fat == [fat[0], fat[1], fat[2]] + rest;
      EntriesRest(fat);
      PackStep(Entries(fat));
    }
  }

  lemma PackNone(fat: seq<nat>)
    requires |fat| == 0
    ensures Pack(Entries(fat)) == fat
  {
  }

  lemma PackStep(values: seq<nat>)
    requires |values| >= 2
    ensures var a, b := values[0], values[1];
            Pack(values) == Three(a, b) + Pack(values[2..])
  {
    hide Three;
  }

  lemma EntryAt(fat: seq<nat>, c: nat)
    requires |fat| % 3 == 0 && c < |fat| / 3 * 2
    ensures c + c / 2 + 1 < |fat| && Entries(fat)[c] == NextCluster(fat, c)
  {
    hide NextCluster;
    InGroups(|fat|, c);
  }

  lemma EntriesRest(fat: seq<nat>)
    requires |fat| % 3 == 0 && |fat| > 0
    ensures |fat| >= 3 && |fat[3..]| % 3 == 0 && |Entries(fat)| >= 2 && Entries(fat)[2..] == Entries(fat[3..])
    ensures Entries(fat)[0] == NextCluster(fat, 0) && Entries(fat)[1] == NextCluster(fat, 1)
  {
    hide NextCluster, Entries;
    EntryAt(fat, 0);
    EntryAt(fat, 1);
    forall c | 2 <= c < |Entries(fat)| ensures Entries(fat)[c] == Entries(fat[3..])[c - 2] {
      EntryAt(fat, c);
      EntryAt(fat[3..], c - 2);
      NextPair(fat, c);
    }
  }

  /** Where the FAT specification puts the entries: of three bytes, the first and the low half of
      the second are the entry of the even cluster, the high half of the second and the third that
      of the odd one. */
  lemma EntryLayout(fat: seq<nat>, k: nat)
    requires 3 * k + 2 < |fat| && fat[3 * k] < 256 && fat[3 * k + 1] < 256 && fat[3 * k + 2] < 256
    ensures NextCluster(fat, 2 * k) == fat[3 * k] + 256 * (fat[3 * k + 1] % 16)
    ensures NextCluster(fat, 2 * k + 1) == fat[3 * k + 1] / 16 + 16 * fat[3 * k + 2]
  {
    var y := fat[3 * k + 1];
    assert 2 * k + 2 * k / 2 == 3 * k && (2 * k + 1) + (2 * k + 1) / 2 == 3 * k + 1;
    Nibbles(fat[3 * k], y / 16, y % 16, fat[3 * k + 2]);
  }

  /** The bytes of two entries in a packed table. */
  lemma {:induction false} PackedBytes(values: seq<nat>, k: nat)
    requires 2 * k + 1 < |values|
    ensures 3 * k + 2 < |Pack(values)| && Pack(values)[3 * k] == values[2 * k] % 256
    ensures Pack(values)[3 * k + 1] == values[2 * k] / 256 + 16 * (values[2 * k + 1] % 16)
    ensures Pack(values)[3 * k + 2] == values[2 * k + 1] / 16
  {
    PackStep(values);
    if k > 0 {
      PackedBytes(values[2..], k - 1);
      assert Pack(values)[3..] == Pack(values[2..]);
    }
  }

  // ---------------------------------------------------------------------------
  // Names

  function Spaces(n: nat): (s: CString)
    ensures |s| == n && forall i :: 0 <= i < n ==> s[i] == ' '
  {
    seq(n, i => ' ')
  }

  /** The first n characters, filled up with spaces. */
  function Field(s: CString, n: nat): (f: CString)
    ensures |f| == n
  {
    if |s| >= n then s[..n] else s + Spaces(n - |s|)
  }

  /** The characters before the first space. */
  function Word(s: CString): CString {
    s[..Cut(s, ' ')]
  }

  /** fat12_convert_dos_to_c_filename */
  function LongName(dos: CString): (name: CString)
    requires |dos| == 11
    ensures |name| <= 12
  {
    Word(dos[..8]) + if dos[8] != ' ' then "." + Word(dos[8..]) else ""
  }

  /** The part of a name before its first dot. */
  function Base(name: CString): CString {
    name[..Cut(name, '.')]
  }

  /** The part after the first dot, which a name that begins with a dot does not have. */
  function Extension(name: CString): CString {
    var d := Cut(name, '.');
    if 0 < d < |name| then name[d + 1..] else ""
  }

  /** fat12_convert_c_to_dos_filename: a name that begins with a dot is cut down to nothing. */
  function DosName(name: CString): (dos: CString)
    ensures |dos| == 11
  {
    if name == "." || name == ".." then Field(name, 11)
    else Field(Base(name), 8) + Field(Extension(name), 3)
  }

  /** A field that holds a word. */
  predicate Padded(f: CString) {
    forall i :: Cut(f, ' ') <= i < |f| ==> f[i] == ' '
  }

  lemma WordField(s: CString, n: nat)
    ensures Word(Field(s, n)) == s <==> ' ' !in s && |s| <= n
  {
    hide Cut;
    var f := Field(s, n);
    if ' ' !in s && |s| <= n {
      forall j | 0 <= j < |s| ensures f[j] != ' ' {
        assert f[j] == s[j];
      }
      CutAt(f, ' ', |s|);
      assert f[..|s|] == s;
    } else {
      assert |Word(f)| == Cut(f, ' ') <= n;
      assert forall j :: 0 <= j < |Word(f)| ==> Word(f)[j] == f[j] != ' ';
    }
  }

  lemma FieldWord(f: CString)
    ensures Field(Word(f), |f|) == f <==> Padded(f)
  {
    hide Cut;
    var g, i := Field(Word(f), |f|), Cut(f, ' ');
    assert forall j :: 0 <= j < i ==> g[j] == f[j];
    assert forall j :: i <= j < |f| ==> g[j] == ' ';
  }

  /** A name of at most eight characters, with an extension of one to three characters if it has a
      dot; or one of the two directory names. */
  predicate Fits83(name: CString) {
    name == "." || name == ".." ||
    (' ' !in name &&
     var d := Cut(name, '.');
     d <= 8 && (d < |name| ==> 0 < d && 1 <= |name| - d - 1 <= 3))
  }

  /** Padded name and extension; a dot in the name, or an extension without a name, is out of place
      except in the two directory names. */
  predicate ProperDos(dos: CString)
    requires |dos| == 11
  {
    && Padded(dos[..8]) && Padded(dos[8..])
    && (dos == Field(".", 11) || dos == Field("..", 11) ||
        (Cut(dos[..8], '.') == 8 && (dos[0] == ' ' ==> dos[8] == ' ')))
  }

  lemma WordIs(f: CString)
    ensures ' ' !in Word(f) && |Word(f)| <= |f| && Word(f) == f[..|Word(f)|]
    ensures |f| > 0 ==> (Word(f) == "" <==> f[0] == ' ')
  {
    hide Cut;
    assert forall j :: 0 <= j < |Word(f)| ==> Word(f)[j] == f[j];
  }

  lemma FieldIs(s: CString, n: nat)
    ensures forall j :: 0 <= j < n ==> Field(s, n)[j] == if j < |s| then s[j] else ' '
  {
  }

  /** The two directory names. */
  lemma Directories(name: CString)
    requires name == "." || name == ".."
    ensures Field(name, 11)[..8] == Field(name, 8) && Field(name, 11)[8..] == "   "
    ensures LongName(Field(name, 11)) == name && Padded(Field(name, 11)[..8]) && Padded(Field(name, 11)[8..])
  {
    hide Cut;
    var dos := Field(name, 11);
    FieldIs(name, 11);
    FieldIs(name, 8);
    assert dos[..8] == Field(name, 8) && dos[8..] == "   ";
    WordField(name, 8);
    FieldWord(dos[..8]);
    CutAt(dos[8..], ' ', 0);
    assert name + "" == name;
  }

  /** The name and the extension of a file. */
  lemma Halves(name: CString)
    requires name != "." && name != ".."
    ensures var base, ext := Base(name), Extension(name);
            && DosName(name)[..8] == Field(base, 8) && DosName(name)[8..] == Field(ext, 3)
            && LongName(DosName(name)) ==
               Word(Field(base, 8)) + if ext == "" || ext[0] == ' ' then "" else "." + Word(Field(ext, 3))
  {
    hide Word, Field, Base, Extension;
    FieldIs(Extension(name), 3);
    LongOfHalves(Field(Base(name), 8), Field(Extension(name), 3));
  }

  lemma LongOfHalves(left: CString, right: CString)
    requires |left| == 8 && |right| == 3
    ensures (left + right)[..8] == left && (left + right)[8..] == right
    ensures LongName(left + right) == Word(left) + if right[0] != ' ' then "." + Word(right) else ""
  {
    hide Cut, Word;
    assert (left + right)[..8] == left && (left + right)[8..] == right;
  }

  /** A name survives the way to the disk and back exactly if it has the 8.3 form. */
  lemma LongOfDos(name: CString)
    ensures LongName(DosName(name)) == name <==> Fits83(name)
  {
    hide Cut, Word, Field, LongName, DosName;
    if name == "." || name == ".." {
      Directories(name);
      DosDirectory(name);
    } else {
      Halves(name);
      var base, ext := Base(name), Extension(name);
      WordField(base, 8);
      WordField(ext, 3);
      WordIs(Field(base, 8));
      if Cut(name, '.') == |name| {
        assert base == name;
        assert Word(Field(name, 8)) + "" == Word(Field(name, 8));
      } else {
        WordOfField(base, 8);
        WithDot(name, Word(Field(base, 8)), Word(Field(ext, 3)));
      }
    }
  }

  lemma DosDirectory(name: CString)
    requires name == "." || name == ".."
    ensures DosName(name) == Field(name, 11)
  {
  }

  lemma WordOfField(s: CString, n: nat)
    ensures |Word(Field(s, n))| <= |s| && Word(Field(s, n)) == s[..|Word(Field(s, n))|]
  {
    hide Cut;
    FieldIs(s, n);
    assert |s| < n ==> Field(s, n)[|s|] == ' ';
  }

  /** Two names with a dot are the same if their parts before and after the first dot are. */
  lemma WithDot(name: CString, base: CString, ext: CString)
    requires Cut(name, '.') < |name| && '.' !in base
    ensures var d := Cut(name, '.');
            base + ("." + ext) == name <==> base == name[..d] && ext == name[d + 1..]
  {
    hide Cut;
    var d := Cut(name, '.');
    assert name == name[..d] + ("." + name[d + 1..]);
    if base + ("." + ext) == name {
      assert forall j :: 0 <= j < |base| ==> name[j] == base[j];
      CutAt(name, '.', |base|);
      assert base == name[..d];
      assert ext == name[d + 1..];
    }
  }

  /** A directory entry survives the way to a name and back exactly if it is padded and has no dot
      out of place. */
  lemma DosOfLong(dos: CString)
    requires |dos| == 11
    ensures DosName(LongName(dos)) == dos <==> ProperDos(dos)
  {
    hide Cut, Word, Field, LongName, DosName, Padded, Base, Extension;
    var name := LongName(dos);
    if name == "." || name == ".." {
      Directories(name);
      DosDirectory(name);
      DirectoryDos(dos, name);
    } else {
      Halves(name);
      FileDos(dos, name);
    }
  }

  /** Which entries are read as a directory name. */
  lemma DirectoryDos(dos: CString, name: CString)
    requires |dos| == 11 && (name == "." || name == "..") && LongName(dos) == name
    ensures Field(name, 11) == dos <==> ProperDos(dos)
  {
    hide Cut, Word, Field, Padded;
    Directories(name);
    Directories(".");
    Directories("..");
    if Cut(dos[..8], '.') == 8 && (dos[0] == ' ' ==> dos[8] == ' ') {
      LongNameDot(dos);
    }
  }

  lemma LongNameDot(dos: CString)
    requires |dos| == 11 && Cut(dos[..8], '.') == 8 && (dos[0] == ' ' ==> dos[8] == ' ')
    ensures LongName(dos) == "" || LongName(dos)[0] != '.'
  {
    hide Cut, Word;
    WordIs(dos[..8]);
  }

  /** The parts of the name of a file. */
  lemma NameParts(dos: CString)
    requires |dos| == 11 && '.' !in Word(dos[..8]) && (dos[8] != ' ' ==> Word(dos[..8]) != "")
    ensures Base(LongName(dos)) == Word(dos[..8]) && Extension(LongName(dos)) == Word(dos[8..])
  {
    hide Cut, Word;
    var base, ext, name := Word(dos[..8]), Word(dos[8..]), LongName(dos);
    WordIs(dos[8..]);
    if dos[8] != ' ' {
      assert name == base + "." + ext;
      DotAt(base, ext, name);
    } else {
      assert name == base + "" == base;
      CutAt(name, '.', |base|);
    }
  }

  lemma DotAt(base: CString, ext: CString, name: CString)
    requires '.' !in base && name == base + "." + ext
    ensures Cut(name, '.') == |base| < |name| && name[..|base|] == base && name[|base| + 1..] == ext
  {
    hide Cut;
    assert forall j :: 0 <= j < |base| ==> name[j] == base[j];
    CutAt(name, '.', |base|);
  }

  /** An extension without a name is read as a name that begins with a dot. */
  lemma NoName(dos: CString)
    requires |dos| == 11 && dos[8] != ' ' && Word(dos[..8]) == ""
    ensures Base(LongName(dos)) == "" == Extension(LongName(dos))
  {
    hide Cut, Word;
    assert LongName(dos)[0] == '.';
    CutAt(LongName(dos), '.', 0);
  }

  /** The name field of an entry that is made from a name: no dot in it, and not empty if there is
      an extension. */
  lemma MadeFromName(dos: CString)
    requires |dos| == 11 && dos[..8] == Field(Base(LongName(dos)), 8) && dos[8..] == Field(Extension(LongName(dos)), 3)
    ensures '.' !in Word(dos[..8]) && Cut(dos[..8], '.') == 8
    ensures dos[8] != ' ' ==> Word(dos[..8]) != "" && dos[0] != ' '
  {
    hide Cut, Word, Field, LongName;
    var name := LongName(dos);
    var base := Base(name);
    WordOfField(base, 8);
    FieldIs(base, 8);
    FieldIs(Extension(name), 3);
    WordIs(dos[..8]);
    assert forall j :: 0 <= j < |base| ==> base[j] == name[j] != '.';
    CutAt(dos[..8], '.', 8);
    assert dos[8] == dos[8..][0];
    if dos[8] != ' ' && Word(dos[..8]) == "" {
      NoName(dos);
    }
  }

  lemma FileDos(dos: CString, name: CString)
    requires |dos| == 11 && name == LongName(dos) && name != "." && name != ".."
    requires DosName(name)[..8] == Field(Base(name), 8) && DosName(name)[8..] == Field(Extension(name), 3)
    ensures DosName(name) == dos <==> ProperDos(dos)
  {
    hide Cut, Word, Field, LongName, DosName, Padded, Base, Extension;
    Directories(".");
    Directories("..");
    FieldWord(dos[..8]);
    FieldWord(dos[8..]);
    WordIs(dos[..8]);
    assert dos == dos[..8] + dos[8..] && DosName(name) == DosName(name)[..8] + DosName(name)[8..];
    if DosName(name) == dos {
      MadeFromName(dos);
      NameParts(dos);
    } else if ProperDos(dos) {
      assert forall j :: 0 <= j < |Word(dos[..8])| ==> Word(dos[..8])[j] == dos[..8][j] != '.';
      NameParts(dos);
    }
  }

  /** Where the characters of a name go: the first eight before the first dot at the start of the
      entry, the first three behind it from the ninth character on, and spaces everywhere else. */
  lemma NameLayout(base: CString, ext: CString, k: nat)
    requires base != "" && '.' !in base && k < 11
    ensures DosName(base + "." + ext)[k] ==
            if k < 8 then (if k < |base| then base[k] else ' ')
            else (if k - 8 < |ext| then ext[k - 8] else ' ')
    ensures DosName(base)[k] == if k < 8 && k < |base| then base[k] else ' '
  {
    hide Cut, Field;
    var name := base + "." + ext;
    assert name[0] != '.' && base[0] != '.';
    DotAt(base, ext, name);
    CutAt(base, '.', |base|);
    assert base[..|base|] == base;
    FieldIs(base, 8);
    FieldIs(ext, 3);
    FieldIs("", 3);
  }

  /** The name of an entry with n characters in its first field and m in its second one. */
  lemma EntryName(dos: CString, n: nat, m: nat)
    requires |dos| == 11 && n <= 8 && m <= 3
    requires (forall i :: 0 <= i < n ==> dos[i] != ' ') && (n < 8 ==> dos[n] == ' ')
    requires (forall i :: 8 <= i < 8 + m ==> dos[i] != ' ') && (m < 3 ==> dos[8 + m] == ' ')
    ensures LongName(dos) == dos[..n] + if m > 0 then "." + dos[8..8 + m] else ""
  {
    hide Cut;
    CutAt(dos[..8], ' ', n);
    CutAt(dos[8..], ' ', m);
    assert dos[..8][..n] == dos[..n] && dos[8..][..m] == dos[8..8 + m];
    if m > 0 {
      assert dos[8..][0] != ' ';
    }
  }

  /** The entries of the two directory names. */
  lemma DirectoryEntries()
    ensures DosName(".") == ".          " && DosName("..") == "..         "
  {
    FieldIs(".", 11);
    FieldIs("..", 11);
  }

  /** A name that begins with a dot is lost, although it is meant to be kept. */
  lemma DotFileLost()
    ensures DosName(".rc") == "           "
  {
    CutAt(".rc", '.', 0);
    FieldIs("", 8);
    FieldIs("", 3);
  }

  // ---------------------------------------------------------------------------
  // The converters

  /** The string at a buffer. */
  ghost predicate Holds(buffer: array<char>, s: CString)
    reads buffer
  {
    |s| < buffer.Length && buffer[..|s|] == s && buffer[|s|] == '\0'
  }

  /** The two loops of fat12_convert_dos_to_c_filename: a field up to its first space. */
  method CopyWord(dos: CString, from: nat, to: nat, longName: array<char>, start: nat) returns (j: nat)
    requires from <= to <= |dos| && start + (to - from) <= longName.Length
    modifies longName
    ensures j == start + |Word(dos[from..to])|
    ensures j <= longName.Length && longName[..j] == old(longName[..start]) + Word(dos[from..to])
  {
    hide Cut;
    var i := from;
    j := start;
    while i < to && dos[i] != ' '
      invariant from <= i <= to && j == start + (i - from)
      invariant longName[..j] == old(longName[..start]) + dos[from..i] && forall k :: from <= k < i ==> dos[k] != ' '
    {
      assert dos[from..i + 1] == dos[from..i] + [dos[i]];
      ghost var was := longName[..j];
      longName[j] := dos[i];
      assert longName[..j + 1] == was + [dos[i]];
      i, j := i + 1, j + 1;
    }
    CutAt(dos[from..to], ' ', i - from);
    assert Word(dos[from..to]) == dos[from..i];
  }

  lemma WordShort(f: CString)
    ensures |Word(f)| <= |f|
  {
  }

  /** fat12_convert_dos_to_c_filename */
  method DosToC(dos: CString, longName: array<char>)
    requires |dos| == 11 && longName.Length >= 13
    modifies longName
    ensures Holds(longName, LongName(dos))
  {
    hide Word;
    WordShort(dos[..8]);
    WordShort(dos[8..]);
    var j := CopyWord(dos, 0, 8, longName, 0);
    assert longName[..j] == Word(dos[..8]);
    if dos[8] != ' ' {
      longName[j] := '.';
      j := j + 1;
      assert longName[..j] == Word(dos[..8]) + ".";
      j := CopyWord(dos, 8, 11, longName, j);
      assert dos[8..11] == dos[8..];
      assert longName[..j] == Word(dos[..8]) + ("." + Word(dos[8..]));
    }
    longName[j] := '\0';
    assert longName[..j] == LongName(dos);
  }

  /** The copy loops of fat12_convert_c_to_dos_filename, into a field filled with spaces. */
  method CopyField(longName: array<char>, from: nat, ghost s: CString, dosName: array<char>, start: nat, width: nat)
    requires longName != dosName && from + |s| < longName.Length && longName[from + |s|] == '\0'
    requires longName[from..from + |s|] == s && start + width < dosName.Length
    requires forall k :: start <= k < start + width ==> dosName[k] == ' '
    modifies dosName
    ensures dosName[start..start + width] == Field(s, width)
    ensures forall k :: 0 <= k < dosName.Length && !(start <= k < start + width) ==> dosName[k] == old(dosName[k])
  {
    hide Field;
    assert forall k :: 0 <= k < |s| ==> s[k] == longName[from + k];
    var i := 0;
    while longName[from + i] != '\0' && i < width
      invariant i <= |s| && i <= width
      invariant forall k :: 0 <= k < i ==> dosName[start + k] == s[k]
      invariant forall k :: start + i <= k < start + width ==> dosName[k] == ' '
      invariant forall k :: 0 <= k < dosName.Length && !(start <= k < start + width) ==> dosName[k] == old(dosName[k])
      decreases width - i
    {
      dosName[start + i] := longName[from + i];
      i := i + 1;
    }
    FieldIs(s, width);
    assert dosName[start..start + width] == Field(s, width);
  }

  /** The name that fat12_convert_c_to_dos_filename leaves in the buffer of its caller: it ends the
      string at the first dot. */
  function CutName(name: CString): CString {
    if name == "." || name == ".." then name else Base(name)
  }

  /** The spaces with which fat12_convert_c_to_dos_filename begins. */
  method Blank(dosName: array<char>)
    requires dosName.Length >= 12
    modifies dosName
    ensures dosName[..11] == Spaces(11) && dosName[11] == '\0'
  {
    var i := 0;
    while i != 11
      invariant 0 <= i <= 11 && forall k :: 0 <= k < i ==> dosName[k] == ' '
      decreases 11 - i
    {
      dosName[i] := ' ';
      i := i + 1;
    }
    dosName[11] := '\0';
  }

  /** The search for the first dot. */
  method FindDot(longName: array<char>, ghost name: CString) returns (i: nat)
    requires Holds(longName, name)
    ensures i == Cut(name, '.')
  {
    hide Cut;
    assert forall k :: 0 <= k < |name| ==> name[k] == longName[k];
    i := 0;
    while longName[i] != '\0' && longName[i] != '.'
      invariant i <= |name| && forall k :: 0 <= k < i ==> name[k] != '.'
      decreases |name| - i
    {
      i := i + 1;
    }
    CutAt(name, '.', i);
  }

  /** strcmp (buffer, s) == 0 */
  method StrEqual(buffer: array<char>, ghost name: CString, s: CString) returns (equal: bool)
    requires Holds(buffer, name)
    ensures equal <==> name == s
  {
    assert forall k :: 0 <= k < |name| ==> name[k] == buffer[k];
    var i := 0;
    while CharAt(s, i) != '\0' && buffer[i] == CharAt(s, i)
      invariant i <= |s| && i <= |name| && name[..i] == s[..i]
      decreases |s| - i
    {
      i := i + 1;
    }
    equal := buffer[i] == CharAt(s, i);
    if equal {
      assert name == name[..i] && s == s[..i];
    }
  }

  /** fat12_convert_c_to_dos_filename, of the string name. */
  method CToDos(longName: array<char>, dosName: array<char>, ghost name: CString)
    requires longName != dosName && Holds(longName, name) && dosName.Length >= 12
    modifies longName, dosName
    ensures dosName[..11] == DosName(name) && dosName[11] == '\0'
    ensures Holds(longName, CutName(name))
  {
    hide Cut;
    Blank(dosName);
    var dot := StrEqual(longName, name, ".");
    if dot {
      dosName[0] := '.';
      assert dosName[..11] == Field(name, 11);
      return;
    }
    var dots := StrEqual(longName, name, "..");
    if dots {
      dosName[0] := '.';
      dosName[1] := '.';
      assert dosName[..11] == Field(name, 11);
      return;
    }
    Separate(longName, dosName, name);
  }

  /** The conversion of a name that is not one of the directory names. */
  method Separate(longName: array<char>, dosName: array<char>, ghost name: CString)
    requires longName != dosName && Holds(longName, name) && dosName.Length >= 12
    requires dosName[..11] == Spaces(11) && dosName[11] == '\0'
    modifies longName, dosName
    ensures dosName[..11] == Field(Base(name), 8) + Field(Extension(name), 3) && dosName[11] == '\0'
    ensures Holds(longName, Base(name))
  {
    hide Cut, Field;
    assert forall k :: 0 <= k < 11 ==> dosName[k] == dosName[..11][k] == ' ';
    var d := FindDot(longName, name);
    var extension := 0;
    if longName[d] == '.' {
      extension := d;
      longName[extension] := '\0';
      extension := extension + 1;
      if extension == 1 {
        extension := 0;
      }
    }
    assert longName[..d] == Base(name);
    CopyField(longName, 0, Base(name), dosName, 0, 8);
    if extension != 0 {
      assert longName[extension..extension + |Extension(name)|] == Extension(name);
      CopyField(longName, extension, Extension(name), dosName, 8, 3);
    } else {
      FieldIs("", 3);
      assert dosName[8..11] == Field("", 3);
    }
    assert dosName[..11] == dosName[0..8] + dosName[8..11];
  }
}
