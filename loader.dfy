/** The placement part of `load_file` in src/main.cc: the words read from a program image are
    put into memory from the image's origin and byte-swapped from the file's big-endian order
    into host order. The file itself is given as the bytes it holds. */
module Loader {
  import opened Words
  import opened MachineState

  /** How many of the words read fit: `fread` asks for at most MEMORY_CAPACITY - origin. */
  function LoadCount(origin: Word, available: nat): (n: nat)
    ensures n <= available && origin + n <= MEMORY_CAPACITY
    ensures n == available || origin + n == MEMORY_CAPACITY
  {
    var maxRead := MEMORY_CAPACITY - origin;
    if available < maxRead then available else maxRead
  }

  /** The word at address `a` after placement: the swapped image word if `a` lies in the
      part of the image that fits, the old memory word otherwise. */
  function PlacedWord(mem: Memory, origin: Word, words: seq<Word>, a: nat): Word
    requires a < MEMORY_CAPACITY
  {
    if origin <= a < origin + LoadCount(origin, |words|) then Swap16(words[a - origin]) else mem[a]
  }

  /** Memory after the words read were placed at `origin` and each was byte-swapped. */
  function Place(mem: Memory, origin: Word, words: seq<Word>): (m: Memory)
    ensures forall a :: 0 <= a < MEMORY_CAPACITY && !(origin <= a < origin + LoadCount(origin, |words|)) ==>
      m[a] == mem[a]
    ensures forall k :: 0 <= k < LoadCount(origin, |words|) ==> m[origin + k] == Swap16(words[k])
  {
    seq(MEMORY_CAPACITY, a requires 0 <= a < MEMORY_CAPACITY => PlacedWord(mem, origin, words, a))
  }

  /** The 16-bit words `fread` delivers from a file's bytes on a little-endian host: each pair
      of bytes with the first one low. A last odd byte is not a whole item and is not read. */
  function HostWords(bytes: seq<Byte>): seq<Word>
  {
    seq(|bytes| / 2, k requires 0 <= k < |bytes| / 2 => (bytes[2 * k + 1] as int) * 0x100 + bytes[2 * k])
  }

  /** The big-endian words an LC-3 image file holds: each pair of bytes with the first one
      high. The first word is the origin, the rest is the program. */
  function ImageWords(bytes: seq<Byte>): seq<Word>
  {
    seq(|bytes| / 2, k requires 0 <= k < |bytes| / 2 => (bytes[2 * k] as int) * 0x100 + bytes[2 * k + 1])
  }

  /** swap16 turns every word `fread` delivers into the image word the file holds there. */
  lemma SwapHostWords(bytes: seq<Byte>)
    ensures |HostWords(bytes)| == |ImageWords(bytes)| == |bytes| / 2
    ensures forall k :: 0 <= k < |bytes| / 2 ==> Swap16(HostWords(bytes)[k]) == ImageWords(bytes)[k]
  {
    forall k | 0 <= k < |bytes| / 2
      ensures Swap16(HostWords(bytes)[k]) == ImageWords(bytes)[k]
    {
      var lo, hi := bytes[2 * k], bytes[2 * k + 1];
      var w := HostWords(bytes)[k];
      assert w == (hi as int) * 0x100 + lo;
      assert w % 0x100 == lo && w / 0x100 == hi;
    }
  }

  /** load_file as written: the origin is the first word `fread` delivers, used without
      swap16, and the words after it are placed from there. A file too short to hold an
      origin leaves `origin` at 0 and reads nothing. */
  function LoadFileAsWritten(mem: Memory, bytes: seq<Byte>): Memory
  {
    var file := HostWords(bytes);
    if file == [] then mem else Place(mem, file[0], file[1..])
  }

  /** load_file with the origin byte-swapped like every other word of the image. */
  function LoadFile(mem: Memory, bytes: seq<Byte>): Memory
  {
    var file := HostWords(bytes);
    if file == [] then mem else Place(mem, Swap16(file[0]), file[1..])
  }

  /** A memory that holds, from the swapped origin on, the swapped words of the image as far
      as they fit, and the old words everywhere else, is what load_file leaves. */
  lemma PlacedFile(mem: Memory, m: Memory, bytes: seq<Byte>)
    requires |bytes| >= 2
    requires var file := HostWords(bytes); var origin := Swap16(file[0]);
      forall a :: 0 <= a < MEMORY_CAPACITY ==>
        m[a] == if origin <= a < origin + LoadCount(origin, |file| - 1) then Swap16(file[a - origin + 1]) else mem[a]
    ensures m == LoadFile(mem, bytes)
  {
    var file := HostWords(bytes);
    var origin := Swap16(file[0]);
    var placed := Place(mem, origin, file[1..]);
    forall a | 0 <= a < MEMORY_CAPACITY
      ensures m[a] == placed[a]
    {
      if origin <= a < origin + LoadCount(origin, |file| - 1) {
        assert file[1..][a - origin] == file[a - origin + 1];
      }
    }
  }

  /** The images named on the command line, loaded one after the other into the same memory:
      a later image overwrites what an earlier one placed at the same addresses. */
  function LoadFiles(mem: Memory, images: seq<seq<Byte>>): Memory
  {
    if images == [] then mem else LoadFile(LoadFiles(mem, images[..|images| - 1]), images[|images| - 1])
  }

  /** The image whose first word is origin 0x3000 and whose program is the one word 0xF025
      (HALT) is placed at 0x0030 by the code as written: 0x3000 is left as it was. */
  lemma OriginNotSwapped(mem: Memory)
    ensures ImageWords([0x30, 0x00, 0xF0, 0x25]) == [0x3000, 0xF025]
    ensures LoadFileAsWritten(mem, [0x30, 0x00, 0xF0, 0x25])[0x0030] == 0xF025
    ensures LoadFileAsWritten(mem, [0x30, 0x00, 0xF0, 0x25])[0x3000] == mem[0x3000]
  {
    var bytes: seq<Byte> := [0x30, 0x00, 0xF0, 0x25];
    assert HostWords(bytes) == [0x0030, 0x25F0];
    assert LoadCount(0x0030, 1) == 1;
  }

  /** With the origin swapped, the program words of an image land from the image's origin on,
      in the image's own byte order, as far as memory reaches; every other word is kept. */
  lemma ImagePlacedAtOrigin(mem: Memory, bytes: seq<Byte>)
    requires |bytes| >= 2
    ensures var image := ImageWords(bytes);
      forall k :: 1 <= k <= LoadCount(image[0], |image| - 1) ==>
        LoadFile(mem, bytes)[image[0] + k - 1] == image[k]
    ensures var image := ImageWords(bytes);
      forall a :: 0 <= a < MEMORY_CAPACITY && !(image[0] <= a < image[0] + LoadCount(image[0], |image| - 1)) ==>
        LoadFile(mem, bytes)[a] == mem[a]
  {
    SwapHostWords(bytes);
    var file := HostWords(bytes);
    var image := ImageWords(bytes);
    assert Swap16(file[0]) == image[0];
    forall k | 1 <= k <= LoadCount(image[0], |image| - 1)
      ensures LoadFile(mem, bytes)[image[0] + k - 1] == image[k]
    {
      assert file[1..][k - 1] == file[k];
    }
  }
}
