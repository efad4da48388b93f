/** Shared vocabulary: options, fixed-width unsigned integers, inode keys and fake metadata. */
module Base {

  datatype Option<+T> = None | Some(value: T) {
    function GetOr(default: T): T {
      match this
      case Some(v) => v
      case None => default
    }
  }

  const U32_LIMIT: int := 0x1_0000_0000
  const U64_LIMIT: int := 0x1_0000_0000_0000_0000

  type byte = x: int | 0 <= x < 256
  type u32 = x: int | 0 <= x < U32_LIMIT
  type u64 = x: int | 0 <= x < U64_LIMIT

  type Bytes = seq<byte>

  /** The bytes of a string of ASCII characters. */
  function Ascii(s: string): Bytes {
    seq(|s|, i requires 0 <= i < |s| => (s[i] as int) % 256)
  }

  /** Device and inode number of a filesystem object. */
  type InodeKey = (u64, u64)

  /** Extended attributes by name; names are the bytes of the attribute's string. */
  type Xattrs = map<Bytes, Bytes>

  /** Fake metadata recorded for one inode. */
  datatype FakeInode = FakeInode(uid: u32, gid: u32, mode: Option<u32>, rdev: Option<u64>, xattrs: Xattrs)

  /** A user and a group. */
  datatype Ids = Ids(uid: u32, gid: u32)

  /** Metadata with the given owner and nothing else faked. */
  function NewInode(uid: u32, gid: u32): FakeInode {
    FakeInode(uid, gid, None, None, map[])
  }

  /** The id meaning "leave this one unchanged" in a chown. */
  const ID_UNCHANGED: u32 := 0xFFFF_FFFF

  /** A chown's choice between a requested id and the one it would otherwise keep. */
  function Chosen(requested: u32, kept: u32): u32 {
    if requested == ID_UNCHANGED then kept else requested
  }

  lemma SubsetSize<T>(a: set<T>, b: set<T>)
    requires a <= b
    ensures |a| <= |b|
  {
    assert |b| == |a| + |b - a| by { assert b == a + (b - a); }
  }
}
