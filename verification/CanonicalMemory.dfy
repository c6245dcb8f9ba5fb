/**
 Canonical guest memory as the GPU sees it: pages of bytes, and backing ranges that string page
 segments together into one logical byte sequence.
 */
module CanonicalMemory {

  datatype Permission = Read | Write | Execute

  type Permissions = set<Permission>

  /** A physical byte of canonical storage. */
  datatype Location = Location(page: nat, byte: nat)

  datatype Segment = Segment(page: nat, offset: nat, size: nat, permissions: Permissions)

  datatype Backing = Backing(segments: seq<Segment>)

  function SegmentsSize(segments: seq<Segment>): nat {
    if segments == [] then 0 else segments[0].size + SegmentsSize(segments[1..])
  }

  function BackingSize(b: Backing): nat {
    SegmentsSize(b.segments)
  }

  /** The canonical byte behind logical byte `index` of a string of segments. */
  function LocateIn(segments: seq<Segment>, index: nat): Location
    requires index < SegmentsSize(segments)
  {
    if index < segments[0].size then
      Location(segments[0].page, segments[0].offset + index)
    else
      LocateIn(segments[1..], index - segments[0].size)
  }

  function Locate(b: Backing, index: nat): Location
    requires index < BackingSize(b)
  {
    LocateIn(b.segments, index)
  }
}
