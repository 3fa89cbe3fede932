// The initrd of a unified kernel image (the uki branch of bootPolicy, src/image/boot-policy.ts): the one section of that
// name in a PE file's table.
module Uki {
  import opened Wrappers
  import opened Bytes
  import opened Buffers

  const SECTION_HEADER := 40
  const INITRD_NAME: seq<byte> := [0x2e, 0x69, 0x6e, 0x69, 0x74, 0x72, 0x64, 0] // .initrd

  // Buffer.readUInt16LE.
  function U16(s: seq<byte>, at: nat): nat
    requires at + 2 <= |s|
  {
    (s[at] as int) + 0x100 * (s[at + 1] as int)
  }

  // The DOS and PE signatures, and a file header inside the image as far as it is read.
  predicate IsPe(boot: seq<byte>) {
    && |boot| >= 64 && boot[..2] == [0x4d, 0x5a]
    && U32(boot, 60) + 22 <= |boot|
    && boot[U32(boot, 60)..U32(boot, 60) + 4] == [0x50, 0x45, 0, 0]
  }

  function SectionCount(boot: seq<byte>): nat
    requires IsPe(boot)
  {
    U16(boot, U32(boot, 60) + 6)
  }

  // Where a section's header starts.
  function SectionAt(boot: seq<byte>, i: nat): nat
    requires IsPe(boot)
  {
    U32(boot, 60) + 24 + U16(boot, U32(boot, 60) + 20) + SECTION_HEADER * i
  }

  predicate Inside(boot: seq<byte>, i: nat)
    requires IsPe(boot)
  {
    SectionAt(boot, i) + SECTION_HEADER <= |boot|
  }

  predicate IsInitrd(boot: seq<byte>, i: nat)
    requires IsPe(boot) && Inside(boot, i)
  {
    boot[SectionAt(boot, i)..SectionAt(boot, i) + 8] == INITRD_NAME
  }

  // A section's bytes: as long in memory as stated, no longer than in the file, and inside it.
  function Section(boot: seq<byte>, i: nat): Option<seq<byte>>
    requires IsPe(boot) && Inside(boot, i)
  {
    var at := SectionAt(boot, i);
    var size, raw, from := U32(boot, at + 8), U32(boot, at + 16), U32(boot, at + 20);
    if size > raw || from + size > |boot| then None else Some(boot[from..from + size])
  }

  // The image holds an initrd: every header is inside the file, one section has the name, and these are its bytes.
  ghost predicate Holds(boot: seq<byte>, initrd: seq<byte>) {
    && IsPe(boot) && (forall i | 0 <= i < SectionCount(boot) :: Inside(boot, i))
    && exists i | 0 <= i < SectionCount(boot) ::
      && IsInitrd(boot, i) && Section(boot, i) == Some(initrd)
      && forall j | 0 <= j < SectionCount(boot) && IsInitrd(boot, j) :: j == i
  }

  lemma HoldsOne(boot: seq<byte>, a: seq<byte>, b: seq<byte>)
    requires Holds(boot, a) && Holds(boot, b)
    ensures a == b
  {
  }

  // The initrd of the image, exactly where it holds one and all of its headers are readable.
  method Initrd(boot: seq<byte>) returns (r: Option<seq<byte>>)
    ensures r.Some? ==> Holds(boot, r.value)
    ensures r.None? ==> forall initrd :: !Holds(boot, initrd)
  {
    hide U32, U16, INITRD_NAME;
    if !IsPe(boot) {
      return None;
    }
    r := None;
    ghost var found := 0;
    for i := 0 to SectionCount(boot)
      invariant forall j | 0 <= j < i :: Inside(boot, j)
      invariant r.None? ==> forall j | 0 <= j < i :: !IsInitrd(boot, j)
      invariant r.Some? ==> found < i && IsInitrd(boot, found) && Section(boot, found) == r
      invariant r.Some? ==> forall j | 0 <= j < i && IsInitrd(boot, j) :: j == found
    {
      if !Inside(boot, i) {
        return None;
      }
      if IsInitrd(boot, i) {
        if r.Some? {
          return None;
        }
        r, found := Section(boot, i), i;
        if r.None? {
          return;
        }
      }
    }
  }
}
