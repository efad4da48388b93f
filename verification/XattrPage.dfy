/** The 4096-byte page that holds one slot's extended attributes behind a 32-bit length. */
module XattrPage {
  import opened Base
  import opened Codec

  const PAGE_SIZE: nat := 4096
  const ROOM: nat := PAGE_SIZE - 4

  type Page = p: Bytes | |p| == PAGE_SIZE witness seq(PAGE_SIZE, _ => 0)

  /** A serializer fit for pages: decoding undoes encoding, and no encoding is empty. */
  ghost predicate Faithful(c: Codec<Xattrs>) {
    && RoundTrips(c)
    && (forall x :: c.encode(x).Some? ==> |c.encode(x).value| > 0)
  }

  /** The page after the attributes are stored; bytes beyond the new encoding stay as they were. */
  function WritePage(c: Codec<Xattrs>, page: Page, x: Xattrs): Page {
    if x == map[] then LeBytes(0, 4) + page[4..]
    else
      match c.encode(x)
      case Some(b) =>
        if |b| <= ROOM then LeBytes(|b|, 4) + b + page[4 + |b|..] else LeBytes(0, 4) + page[4..]
      case None => LeBytes(0, 4) + page[4..]
  }

  function ReadPage(c: Codec<Xattrs>, page: Page): Xattrs {
    var len := U32Of(page[..4]);
    if len == 0 || len > ROOM then map[]
    else
      match c.decode(page[4..4 + len])
      case Some((x, _)) => x
      case None => map[]
  }

  /** The attributes a page can hold: all of them, or none when their encoding does not fit. */
  function Kept(c: Codec<Xattrs>, x: Xattrs): Xattrs {
    match c.encode(x)
    case Some(b) => if |b| <= ROOM then x else map[]
    case None => map[]
  }

  /**
   Reading after writing gives the attributes when their encoding has at most 4092 bytes and
   none otherwise, whatever bytes the page held before.
   */
  lemma PageRoundTrip(c: Codec<Xattrs>, page: Page, x: Xattrs)
    requires Faithful(c)
    ensures ReadPage(c, WritePage(c, page, x)) == Kept(c, x)
    ensures Kept(c, x) == if c.encode(x).Some? && |c.encode(x).value| <= 4092 then x else map[]
  {
    Widths();
    var after := WritePage(c, page, x);
    if x != map[] && c.encode(x).Some? && |c.encode(x).value| <= ROOM {
      var b := c.encode(x).value;
      LeRoundTrip(|b|, 4);
      assert after[..4] == LeBytes(|b|, 4);
      assert after[4..4 + |b|] == b;
      assert b + [] == b;
    } else {
      LeRoundTrip(0, 4);
      assert after[..4] == LeBytes(0, 4);
    }
  }
}
