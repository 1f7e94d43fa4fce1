// The ls-style helpers of sftp_file: the permission string built from the
// mode bits, and the file-type tests on libssh's type byte.
module SftpFile {
  /** <sys/stat.h> mode bits (octal values written out). */
  const S_IFDIR: bv32 := 0x4000   // 0040000
  const S_IRUSR: bv32 := 0x100    // 0400
  const S_IWUSR: bv32 := 0x80     // 0200
  const S_IXUSR: bv32 := 0x40     // 0100
  const S_IRGRP: bv32 := 0x20     // 0040
  const S_IWGRP: bv32 := 0x10     // 0020
  const S_IXGRP: bv32 := 0x8      // 0010
  const S_IROTH: bv32 := 0x4      // 0004
  const S_IWOTH: bv32 := 0x2      // 0002
  const S_IXOTH: bv32 := 0x1      // 0001

  /** libssh's SSH_FILEXFER_TYPE_* values: consecutive numbers, not bit flags. */
  const TYPE_REGULAR: bv8 := 1
  const TYPE_DIRECTORY: bv8 := 2
  const TYPE_SYMLINK: bv8 := 3
  const TYPE_SPECIAL: bv8 := 4

  /** The mode bit shown at position i (1 to 9) of the permission string: owner, group, other; r, w, x. */
  function PermBit(i: nat): bv32
    requires 1 <= i <= 9
  {
    if i == 1 then S_IRUSR else if i == 2 then S_IWUSR else if i == 3 then S_IXUSR
    else if i == 4 then S_IRGRP else if i == 5 then S_IWGRP else if i == 6 then S_IXGRP
    else if i == 7 then S_IROTH else if i == 8 then S_IWOTH else S_IXOTH
  }

  /** The letter shown at position i (1 to 9) when its bit is set. */
  function PermLetter(i: nat): char
    requires 1 <= i <= 9
  {
    if i == 1 || i == 4 || i == 7 then 'r' else if i == 2 || i == 5 || i == 8 then 'w' else 'x'
  }

  predicate HasBit(mode: bv32, bit: bv32)
  {
    mode & bit != 0
  }

  /** '-' unless the bit is set, then the letter: one conditional append of get_permissions_str. */
  function Flag(mode: bv32, bit: bv32, letter: char): char
  {
    if HasBit(mode, bit) then letter else '-'
  }

  /** get_permissions_str: ten characters appended one by one. */
  function PermissionsStr(mode: bv32): (perms: seq<char>)
    ensures |perms| == 10
  {
    [Flag(mode, S_IFDIR, 'd'),
     Flag(mode, S_IRUSR, 'r'), Flag(mode, S_IWUSR, 'w'), Flag(mode, S_IXUSR, 'x'),
     Flag(mode, S_IRGRP, 'r'), Flag(mode, S_IWGRP, 'w'), Flag(mode, S_IXGRP, 'x'),
     Flag(mode, S_IROTH, 'r'), Flag(mode, S_IWOTH, 'w'), Flag(mode, S_IXOTH, 'x')]
  }

  /** Position i of the permission string shows bit PermBit(i). */
  lemma PermissionsAt(mode: bv32, i: nat)
    requires 1 <= i <= 9
    ensures PermissionsStr(mode)[i] == Flag(mode, PermBit(i), PermLetter(i))
  {
    var p := PermissionsStr(mode);
    if i == 1 { assert p[1] == Flag(mode, S_IRUSR, 'r'); }
    else if i == 2 { assert p[2] == Flag(mode, S_IWUSR, 'w'); }
    else if i == 3 { assert p[3] == Flag(mode, S_IXUSR, 'x'); }
    else if i == 4 { assert p[4] == Flag(mode, S_IRGRP, 'r'); }
    else if i == 5 { assert p[5] == Flag(mode, S_IWGRP, 'w'); }
    else if i == 6 { assert p[6] == Flag(mode, S_IXGRP, 'x'); }
    else if i == 7 { assert p[7] == Flag(mode, S_IROTH, 'r'); }
    else if i == 8 { assert p[8] == Flag(mode, S_IWOTH, 'w'); }
  }

  /**
   * The layout of the permission string: 'd' exactly for a mode with the
   * S_IFDIR bit, then r, w, x or '-' for owner, group and other in turn.
   */
  lemma PermissionsLayout(mode: bv32)
    ensures PermissionsStr(mode)[0] == (if HasBit(mode, S_IFDIR) then 'd' else '-')
    ensures forall i :: 1 <= i <= 9 ==>
      PermissionsStr(mode)[i] == (if HasBit(mode, PermBit(i)) then PermLetter(i) else '-')
  {
    forall i | 1 <= i <= 9
      ensures PermissionsStr(mode)[i] == (if HasBit(mode, PermBit(i)) then PermLetter(i) else '-')
    {
      PermissionsAt(mode, i);
    }
  }

  /** A shown letter stands for its bit. */
  function Shown(c: char, bit: bv32): bv32
  {
    if c != '-' then bit else 0
  }

  /** The mode bits a permission string shows, read back letter by letter. */
  function ShownBits(perms: seq<char>): (m: bv32)
    requires |perms| == 10
  {
    Shown(perms[1], S_IRUSR) | Shown(perms[2], S_IWUSR) | Shown(perms[3], S_IXUSR)
    | Shown(perms[4], S_IRGRP) | Shown(perms[5], S_IWGRP) | Shown(perms[6], S_IXGRP)
    | Shown(perms[7], S_IROTH) | Shown(perms[8], S_IWOTH) | Shown(perms[9], S_IXOTH)
  }

  /** Reading the permission string back gives exactly the nine permission bits of the mode. */
  lemma PermissionsRoundTrip(mode: bv32)
    ensures ShownBits(PermissionsStr(mode)) == mode & 0x1FF
  {
    var p := PermissionsStr(mode);
    ShownFlag(mode, S_IRUSR, 'r'); ShownFlag(mode, S_IWUSR, 'w'); ShownFlag(mode, S_IXUSR, 'x');
    ShownFlag(mode, S_IRGRP, 'r'); ShownFlag(mode, S_IWGRP, 'w'); ShownFlag(mode, S_IXGRP, 'x');
    ShownFlag(mode, S_IROTH, 'r'); ShownFlag(mode, S_IWOTH, 'w'); ShownFlag(mode, S_IXOTH, 'x');
    assert ShownBits(p) == (mode & 0x100) | (mode & 0x80) | (mode & 0x40) | (mode & 0x20)
      | (mode & 0x10) | (mode & 0x8) | (mode & 0x4) | (mode & 0x2) | (mode & 0x1);
  }

  /** For a single-bit mask, the letter read back is the bit of the mode. */
  lemma ShownFlag(mode: bv32, bit: bv32, letter: char)
    requires letter != '-' && bit != 0 && bit & (bit - 1) == 0
    ensures Shown(Flag(mode, bit, letter), bit) == mode & bit
  {
  }

  /** get_type_str: the first of REGULAR, DIRECTORY, SYMLINK, SPECIAL sharing a bit with the type byte. */
  function TypeStr(t: bv8): (s: seq<char>)
    ensures s == "file" <==> t & TYPE_REGULAR != 0
    ensures s == "directory" <==> t & TYPE_REGULAR == 0 && t & TYPE_DIRECTORY != 0
    ensures s == "unknown" <==> t & (TYPE_REGULAR | TYPE_DIRECTORY | TYPE_SYMLINK | TYPE_SPECIAL) == 0
  {
    if t & TYPE_REGULAR != 0 then "file"
    else if t & TYPE_DIRECTORY != 0 then "directory"
    else if t & TYPE_SYMLINK != 0 then "symlink"
    else if t & TYPE_SPECIAL != 0 then "special"
    else "unknown"
  }

  /** is_directory. */
  function IsDirectory(t: bv8): (b: bool)
    ensures b <==> t & TYPE_DIRECTORY != 0
  {
    (t & TYPE_DIRECTORY) > 0
  }

  /** is_file. */
  function IsFile(t: bv8): (b: bool)
    ensures b <==> t & TYPE_REGULAR != 0
  {
    (t & TYPE_REGULAR) > 0
  }

  /**
   * Because the type values are tested as bit masks, a symbolic link (3)
   * reports "file" and counts as both a file and a directory, and the
   * "symlink" answer is unreachable for the four libssh types.
   */
  lemma TypeMasksOverlap()
    ensures TypeStr(TYPE_SYMLINK) == "file"
    ensures IsFile(TYPE_SYMLINK) && IsDirectory(TYPE_SYMLINK)
    ensures TypeStr(TYPE_SPECIAL) == "special"
    ensures forall t: bv8 :: t in {TYPE_REGULAR, TYPE_DIRECTORY, TYPE_SYMLINK, TYPE_SPECIAL} ==> TypeStr(t) != "symlink"
  {
  }

  /** get_type_str with the type byte compared for equality, as the values are an enumeration. */
  function IntendedTypeStr(t: bv8): seq<char>
  {
    if t == TYPE_REGULAR then "file"
    else if t == TYPE_DIRECTORY then "directory"
    else if t == TYPE_SYMLINK then "symlink"
    else if t == TYPE_SPECIAL then "special"
    else "unknown"
  }

  /**
   * Compared for equality, each of the four types gets its own name, a
   * symbolic link included, and every other byte is "unknown".
   */
  lemma IntendedTypeStrNames(t: bv8)
    ensures IntendedTypeStr(TYPE_SYMLINK) == "symlink" && IntendedTypeStr(TYPE_REGULAR) == "file"
    ensures IntendedTypeStr(TYPE_DIRECTORY) == "directory" && IntendedTypeStr(TYPE_SPECIAL) == "special"
    ensures IntendedTypeStr(t) == "unknown" <==> t !in {TYPE_REGULAR, TYPE_DIRECTORY, TYPE_SYMLINK, TYPE_SPECIAL}
    ensures forall u: bv8 :: IntendedTypeStr(u) == IntendedTypeStr(t) && IntendedTypeStr(t) != "unknown" ==> u == t
  {
  }

  /** is_file agrees with get_type_str answering "file". */
  lemma FileTestsAgree(t: bv8)
    ensures IsFile(t) <==> TypeStr(t) == "file"
    ensures IsDirectory(t) && !IsFile(t) <==> TypeStr(t) == "directory"
  {
  }
}
