/** How NVMEM objects lie in flash: containers one after the other, over the data areas of the listed
    pages.  Positions count data bytes from page number 0 on, so that a container keeps its position
    when pages before it are released. */
module NvLayout {
  import opened Common

  const CONFIG_FLASH_BANK_SIZE: nat := 2048
  const PAGE_HEADER_SIZE: nat := 8
  const CONTAINER_SIZE: nat := 4

  const NN_OBJ_OLD_COPY: nat := 0
  const NN_OBJ_TUPLE: nat := 1
  const NN_OBJ_TPM_RESERVED: nat := 2
  const NN_OBJ_TPM_EVICTABLE: nat := 3
  const NN_OBJ_TRANSACTION_DEL: nat := 4
  const NN_OBJ_ERASED: nat := 7

  const HASHES: nat := 0x1000
  const GENERATIONS: nat := 4

  /** So large an object spans no more than one page boundary. */
  const MAX_OBJECT_SIZE: nat := 2036

  // ----- container headers

  /** struct nn_container */
  datatype Container = Container(kind: nat, copy: nat, size: nat, generation: nat, hash: nat)

  ghost predicate ContainerOk(c: Container) {
    c.kind < 8 && c.copy < 8 && c.size < 0x800 && c.generation < GENERATIONS && c.hash < HASHES
  }

  /** The bit fields from the least significant on: three bits of type, three of its copy, one unused,
      eleven of size, two of generation and twelve of hash. */
  function Word(c: Container): nat {
    c.kind + 8 * (c.copy + 8 * (2 * (c.size + 0x800 * (c.generation + 4 * c.hash))))
  }

  function Fields(w: nat): Container {
    var a := w / 8;
    var b := a / 8;
    var c := b / 2;
    var d := c / 0x800;
    Container(w % 8, a % 8, c % 0x800, d % 4, d / 4)
  }

  lemma FieldsOfWord(c: Container)
    requires ContainerOk(c)
    ensures Fields(Word(c)) == c && Word(c) < 0x1_0000_0000
  {
    var d := c.generation + 4 * c.hash;
    var e := c.size + 0x800 * d;
    var a := c.copy + 8 * (2 * e);
    assert Word(c) == c.kind + 8 * a;
    assert Word(c) / 8 == a && a / 8 == 2 * e && e / 0x800 == d;
  }

  function Bytes4(w: nat): (s: seq<uint8>)
    requires w < 0x1_0000_0000
    ensures |s| == 4
  {
    var u := w / 256;
    var v := u / 256;
    [(w % 256) as uint8, (u % 256) as uint8, (v % 256) as uint8, (v / 256) as uint8]
  }

  function Word4(s: seq<uint8>): nat
    requires |s| == 4
  {
    s[0] as nat + 256 * (s[1] as nat + 256 * (s[2] as nat + 256 * s[3] as nat))
  }

  lemma Word4OfBytes4(w: nat)
    requires w < 0x1_0000_0000
    ensures Word4(Bytes4(w)) == w
  {
    var u := w / 256;
    var v := u / 256;
    assert v / 256 < 256;
  }

  function HeaderBytes(c: Container): seq<uint8>
    requires ContainerOk(c)
  {
    FieldsOfWord(c);
    Bytes4(Word(c))
  }

  function HeaderOf(s: seq<uint8>): Container
    requires |s| == 4
  {
    Fields(Word4(s))
  }

  lemma HeaderRoundTrip(c: Container)
    requires ContainerOk(c)
    ensures |HeaderBytes(c)| == 4 && HeaderOf(HeaderBytes(c)) == c
  {
    FieldsOfWord(c);
    Word4OfBytes4(Word(c));
  }

  const ERASED_HEADER: seq<uint8> := [255, 255, 255, 255]

  /** Erased flash reads as a container of the type that ends the storage. */
  lemma ErasedHeader()
    ensures HeaderOf(ERASED_HEADER).kind == NN_OBJ_ERASED
  {
    assert Word4(ERASED_HEADER) == 0xffff_ffff;
  }

  /** aligned_container_size */
  function AlignedSize(size: nat): (n: nat)
    ensures n % 4 == 0 && size + CONTAINER_SIZE <= n <= size + CONTAINER_SIZE + 3
  {
    (size + CONTAINER_SIZE + 3) / 4 * 4
  }
}
