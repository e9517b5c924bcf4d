/** The NVMEM storage as the code keeps it: the listed pages, the controller's place, and operations
    on containers. */
module NvDevice {
  import opened Common
  import opened Flash
  import opened NvLayout
  import opened NvLog
  import opened NvStore
  import opened NvWrite

  /** Hashes a container, and encrypts it under its place. */
  method Encode(coder: Coder, page: nat, offset: nat, kind: nat, generation: nat, body: seq<uint8>, pad: seq<uint8>)
    returns (image: seq<uint8>, ghost e: Item)
    requires CoderOk(coder) && PAGE_HEADER_SIZE <= offset < CONFIG_FLASH_BANK_SIZE && offset % 4 == 0 && |pad| == 3
    requires kind < NN_OBJ_ERASED && generation < GENERATIONS && |body| <= MAX_OBJECT_SIZE
    ensures e == Item(Position(page, offset), kind, kind, generation, body) && IsImage(coder, e, image)
  {
    var hash := HashOf(coder, kind, generation, body);
    var payload := if |body| > 0 then coder.cipher(Salt(page, offset, hash), body) else body;
    var header := Container(kind, kind, |body|, generation, hash);
    e := Item(Position(page, offset), kind, kind, generation, body);
    PlaceOfSalt(page, offset, hash);
    PlaceAligned(page, offset);
    HeaderRoundTrip(header);
    var rest := pad[..AlignedSize(|body|) - CONTAINER_SIZE - |body|];
    ImageIs(coder, e, header, payload, rest);
    image := HeaderBytes(header) + payload + rest;
  }

  /** The header of a container in flash with its type erased, and where it goes. */
  method TypeErased(coder: Coder, headers: seq<PageHeader>, data: seq<uint8>, page: nat, at: nat,
                    ghost pageCount: nat, ghost offset: nat, ghost log: seq<Item>, ghost low: nat,
                    ghost firsts: seq<nat>,
                    ghost i: nat)
    returns (o: nat, bytes: seq<uint8>)
    requires StoreOk(coder, headers, data, pageCount, offset, log, low, firsts) && low <= i < |log|
    requires Position(page, at) == log[i].pos
    ensures Stored(coder, data, Base(headers), log[i]) && Base(headers) <= log[i].pos && |bytes| == CONTAINER_SIZE
    ensures o == log[i].pos - Base(headers) && bytes == HeaderBytes(HeaderFor(coder, Deleted(log[i])))
    ensures o + CONTAINER_SIZE <= |data|
  {
    StoreReady(coder, headers, data, pageCount, offset, log, low, firsts, i);
    o := Position(page - headers[0].number, at);
    var c := HeaderOf(data[o..o + CONTAINER_SIZE]);
    c := c.(kind := NN_OBJ_OLD_COPY);
    HeaderRoundTrip(c);
    bytes := HeaderBytes(c);
  }

  lemma PlaceAligned(page: nat, offset: nat)
    requires offset % 4 == 0
    ensures Position(page, offset) % 4 == 0
  {
  }

  /** What is said for all x with Unfold(x) is gone into only where Unfold is mentioned.  So the state of the
      flash is handed on through long methods as a whole. */
  predicate Unfold(x: int) { x == x }

  class Store {
    const coder: Coder

    /** What happens to lie after a container in memory, and is written as its padding. */
    const padding: nat -> seq<uint8>

    // The listed pages that hold data, in order, and how many pages there are in all.
    var headers: seq<PageHeader>
    var data: seq<uint8>
    var pageCount: nat

    // controller_at: the place of the next write.
    var index: nat
    var offset: nat

    /** All containers ever written that can still be referred to; those from low on are in flash. */
    ghost var log: seq<Item>
    ghost var low: nat
    ghost var firsts: seq<nat>

    /** Erased flash, with the header of the first page set. */
    constructor (coder: Coder, padding: nat -> seq<uint8>, pageCount: nat)
      requires CoderOk(coder) && pageCount > 0 && forall p :: |padding(p)| == 3
      ensures Valid() && log == [] && low == 0 && this.pageCount == pageCount
      ensures headers == [PageHeader(0, PAGE_HEADER_SIZE)] && offset == PAGE_HEADER_SIZE
    {
      this.coder, this.padding, this.pageCount := coder, padding, pageCount;
      headers, data := [PageHeader(0, PAGE_HEADER_SIZE)], Erased(2040);
      index, offset := 0, PAGE_HEADER_SIZE;
      log, low, firsts := [], 0, [0];
    }

    ghost predicate Valid()
      reads this
    {
      && 0 < |headers| <= pageCount && index == |headers| - 1 && (forall p :: |padding(p)| == 3)
      && PAGE_HEADER_SIZE <= offset < CONFIG_FLASH_BANK_SIZE && offset % 4 == 0
      && (forall x {:trigger Unfold(x)} :: Unfold(x) ==>
            StoreOk(coder, headers, data, pageCount, offset, log, low, firsts))
    }

    /** The parts of the state. */
    lemma Parts()
      requires Valid()
      ensures StoreOk(coder, headers, data, pageCount, offset, log, low, firsts)
    {
      assert Unfold(0);
    }

    /** Where the next container goes. */
    ghost function To(): int
      requires |headers| > 0
      reads this
    {
      Position(headers[|headers| - 1].number, offset)
    }

    /** The bytes that are left, in the current page and the free ones. */
    ghost function Free(): int
      reads this
    {
      2040 * (pageCount - |headers|) + CONFIG_FLASH_BANK_SIZE - offset
    }

    /** A tracker is before item i. */
    ghost predicate At(t: Tracker, i: nat)
      requires |headers| > 0 && To() >= 0
      reads this
    {
      low <= i <= |log| && Starts(headers, t, PosAt(log, i, To()))
    }

    /** write_to_flash */
    method WriteToFlash(o: nat, bytes: seq<uint8>)
      requires o + |bytes| <= |data|
      modifies this`data
      ensures data == old(data)[..o] + bytes + old(data)[o + |bytes|..]
    {
      data := data[..o] + bytes + data[o + |bytes|..];
    }

    /** start_new_flash_page: takes the next free page, or reboots when there is none. */
    method StartNewFlashPage(dataSize: nat) returns (rc: Code)
      requires |headers| > 0 && index == |headers| - 1
      modifies this`headers, this`data, this`index, this`offset
      ensures rc == if |old(headers)| < pageCount then Success else Reboot
      ensures rc == Success ==>
                && headers == old(headers)
                    + [PageHeader(old(headers)[old(index)].number + 1, PAGE_HEADER_SIZE + dataSize)]
                && data == old(data) + Erased(2040) && index == old(index) + 1 && offset == PAGE_HEADER_SIZE
    {
      if index + 1 >= pageCount {
        return Reboot;
      }
      headers := headers + [PageHeader(headers[index].number + 1, PAGE_HEADER_SIZE + dataSize)];
      data := data + Erased(2040);
      index, offset := index + 1, PAGE_HEADER_SIZE;
      return Success;
    }

    /** save_object, for a container that ends before the page does. */
    method WriteInPage(image: seq<uint8>, ghost e: Item)
      requires Valid() && IsImage(coder, e, image) && e.pos == To() && offset + |image| < CONFIG_FLASH_BANK_SIZE
      modifies this`data, this`offset, this`log
      ensures Valid() && log == old(log) + [e] && offset == old(offset) + |image|
      ensures Free() == old(Free()) - |image|
    {
      var o := 2040 * index + offset - PAGE_HEADER_SIZE;
      ReadyInPage(image, e, o);
      WriteToFlash(o, image);
      offset := offset + |image|;
      log := log + [e];
    }

    /** What the page will be with a container that ends in it. */
    lemma ReadyInPage(image: seq<uint8>, e: Item, o: int)
      requires Valid() && IsImage(coder, e, image) && e.pos == To() && offset + |image| < CONFIG_FLASH_BANK_SIZE
      requires o == 2040 * index + offset - PAGE_HEADER_SIZE
      ensures 0 <= o && o + |image| <= |data|
      ensures StoreOk(coder, headers, data[..o] + image + data[o + |image|..], pageCount, offset + |image|,
                      log + [e], low, firsts)
    {
      LastErased(o);
      var after := data[..o] + image + data[o + |image|..];
      StillErased(data, o, image, after);
      Parts();
      LogWritten(coder, headers, data, pageCount, offset, log, low, firsts, e, image, after);
      StoreAppend(coder, headers, data, pageCount, offset, log, low, firsts, e, after, |image|);
    }

    lemma LastErased(o: int)
      requires Valid() && o == 2040 * index + offset - PAGE_HEADER_SIZE
      ensures 0 <= o && o + CONFIG_FLASH_BANK_SIZE - offset == |data| && data[o..] == Erased(|data| - o)
    {
      Parts();
      StoreListed(coder, headers, data, pageCount, offset, log, low, firsts);
    }

    /** Finishes the page and puts the rest on a new one. */
    method FillPages(image: seq<uint8>, rest: nat) returns (rc: Code)
      requires |headers| > 0 && index == |headers| - 1 && |data| == 2040 * |headers|
      requires PAGE_HEADER_SIZE <= offset < CONFIG_FLASH_BANK_SIZE && rest < 2040
      requires |image| == CONFIG_FLASH_BANK_SIZE - offset + rest
      modifies this`headers, this`data, this`index, this`offset
      ensures rc == if |old(headers)| < pageCount then Success else Reboot
      ensures rc == Success ==>
                && headers == old(headers) + [PageHeader(old(headers)[old(index)].number + 1, PAGE_HEADER_SIZE + rest)]
                && index == old(index) + 1 && offset == PAGE_HEADER_SIZE + rest
                && data == old(data)[..2040 * old(index) + old(offset) - PAGE_HEADER_SIZE] + image + Erased(2040 - rest)
    {
      ghost var before := data;
      var o := 2040 * index + offset - PAGE_HEADER_SIZE;
      var topRoom := CONFIG_FLASH_BANK_SIZE - offset;
      WriteToFlash(o, image[..topRoom]);
      rc := StartNewFlashPage(rest);
      if rc != Success {
        return;
      }
      if rest > 0 {
        WriteToFlash(2040 * index, image[topRoom..]);
        offset := offset + rest;
      }
      TwoParts(before, o, image, topRoom, data);
    }

    /** save_object, for a container that reaches the end of the page. */
    method WriteAcross(image: seq<uint8>, ghost e: Item) returns (rc: Code)
      requires Valid() && IsImage(coder, e, image) && e.pos == To() && offset + |image| >= CONFIG_FLASH_BANK_SIZE
      modifies this`headers, this`data, this`index, this`offset, this`log, this`firsts
      ensures rc == if |old(headers)| < pageCount then Success else Reboot
      ensures rc == Success ==>
                && Valid() && log == old(log) + [e] && old(headers) <= headers && old(firsts) <= firsts
                && offset == PAGE_HEADER_SIZE + old(offset) + |image| - CONFIG_FLASH_BANK_SIZE
                && |headers| == |old(headers)| + 1
    {
      var rest := |image| - (CONFIG_FLASH_BANK_SIZE - offset);
      ghost var h := PageHeader(headers[index].number + 1, PAGE_HEADER_SIZE + rest);
      ReadyAcross(image, e, rest, h);
      Parts();
      rc := FillPages(image, rest);
      if rc == Success {
        log, firsts := log + [e], firsts + [|log| + 1];
      }
    }

    /** What two pages will be with a container that starts in one and ends in the next. */
    lemma ReadyAcross(image: seq<uint8>, e: Item, rest: nat, h: PageHeader)
      requires Valid() && IsImage(coder, e, image) && e.pos == To() && offset + |image| == CONFIG_FLASH_BANK_SIZE + rest
      requires h == PageHeader(headers[index].number + 1, PAGE_HEADER_SIZE + rest)
      ensures 2040 * index + offset - PAGE_HEADER_SIZE <= |data| && rest < 2040
      ensures |headers| < pageCount ==>
                StoreOk(coder, headers + [h],
                        data[..2040 * index + offset - PAGE_HEADER_SIZE] + image + Erased(2040 - rest), pageCount,
                        PAGE_HEADER_SIZE + rest, log + [e], low, firsts + [|log| + 1])
    {
      var o := 2040 * index + offset - PAGE_HEADER_SIZE;
      LastErased(o);
      if |headers| < pageCount {
        Parts();
        WrittenAcross(coder, headers, data, pageCount, offset, log, low, firsts, e, image,
                      data[..o] + image + Erased(2040 - rest),
                      rest, h);
      }
    }

    lemma TwoParts(before: seq<uint8>, o: nat, image: seq<uint8>, n: nat, after: seq<uint8>)
      requires n <= |image| && o + n == |before| && |image| - n <= 2040
      requires var first := before[..o] + image[..n] + before[o + n..] + Erased(2040);
               after == if n == |image| then first else first[..|before|] + image[n..] + first[|before| + |image| - n..]
      ensures after == before[..o] + image + Erased(2040 - (|image| - n))
    {
    }

    /** The place of the next write, after n bytes from another. */
    ghost predicate Advanced(pages: nat, from: nat, n: nat)
      reads this
    {
      if from + n < CONFIG_FLASH_BANK_SIZE then |headers| == pages && offset == from + n
      else |headers| == pages + 1 && offset == PAGE_HEADER_SIZE + from + n - CONFIG_FLASH_BANK_SIZE
    }

    /** save_object: a container that reaches the end of the page goes on in the next. */
    method SaveObject(image: seq<uint8>, ghost e: Item) returns (rc: Code)
      requires Valid() && IsImage(coder, e, image) && e.pos == To()
      modifies this`headers, this`data, this`index, this`offset, this`log, this`firsts
      ensures rc == if |image| < old(Free()) then Success else Reboot
      ensures rc == Success ==> Valid() && log == old(log) + [e] && old(headers) <= headers && old(firsts) <= firsts
      ensures rc == Success ==> Advanced(|old(headers)|, old(offset), |image|) && Free() == old(Free()) - |image|
    {
      rc := Success;
      if |image| >= CONFIG_FLASH_BANK_SIZE - offset {
        rc := WriteAcross(image, e);
      } else {
        WriteInPage(image, e);
      }
    }

    /** Trackers keep their place when the log grows. */
    lemma AtKept(hs: seq<PageHeader>, items: seq<Item>, to: nat, t: Tracker, i: nat)
      requires |hs| > 0 && hs <= headers && items <= log && |items| < |log| && log[|items|].pos == to && To() >= 0
      requires low <= i <= |items| && Starts(hs, t, PosAt(items, i, to))
      ensures At(t, i)
    {
    }

    /** save_container */
    method SaveContainer(kind: nat, generation: nat, body: seq<uint8>) returns (rc: Code)
      requires Valid() && kind < NN_OBJ_ERASED && generation < GENERATIONS && |body| <= MAX_OBJECT_SIZE
      modifies this`headers, this`data, this`index, this`offset, this`log, this`firsts
      ensures rc == if AlignedSize(|body|) < old(Free()) then Success else Reboot
      ensures rc == Success ==>
                && Valid() && old(headers) <= headers && old(firsts) <= firsts
                && log == old(log) + [Item(old(To()), kind, kind, generation, body)]
                && Advanced(|old(headers)|, old(offset), AlignedSize(|body|))
                && Free() == old(Free()) - AlignedSize(|body|)
    {
      Parts();
      var image, e := Encode(coder, headers[index].number, offset, kind, generation, body,
                             padding(2040 * headers[index].number + offset - PAGE_HEADER_SIZE));
      rc := SaveObject(image, e);
    }

    /** get_next_object */
    method Next(t: Tracker, includeDeleted: bool, ghost i: nat, ch: Item := NO_ITEM)
      returns (rc: Code, t': Tracker, item: Item, ghost j: nat)
      requires Valid() && To() >= 0 && At(t, i)
      ensures j == NextVisible(log, i, includeDeleted)
      ensures rc == if NextVisible(log, i, includeDeleted) < |log| then Success else EndOfLog
      ensures rc == Success ==> item == log[NextVisible(log, i, includeDeleted)]
      ensures j == |log| ==>
                && rc == EndOfLog && At(t', |log|) && AtPos(headers, t', To())
                && item == if i < |log| then log[|log| - 1] else ch
      ensures j < |log| ==>
                && rc == Success && item == log[j] && ItemOk(item) && At(t', j + 1)
                && AtPos(headers, t', PosAt(log, j + 1, To()))
                && IsPlaceOf(t', j)
      ensures if j < |log| && IsFinalized(log[j]) then t'.dPage == Some(t'.cPage) && t'.dOffset == t'.cOffset
              else t'.dPage == t.dPage && t'.dOffset == t.dOffset
    {
      Parts();
      rc, t', item, j := GetNextObject(coder, headers, data, t, includeDeleted, ch, pageCount, offset, log, low,
                                       firsts, To(), i);
    }

    /** The tracker has container j as the last one fetched. */
    ghost predicate IsPlaceOf(t: Tracker, j: nat)
      reads this
    {
      j < |log| && IsPlace(t.cPage, t.cOffset, j)
    }

    ghost predicate IsPlace(page: nat, at: nat, j: nat)
      reads this
    {
      j < |log| && Position(page, at) == log[j].pos && PAGE_HEADER_SIZE <= at < CONFIG_FLASH_BANK_SIZE
    }

    /** invalidate_object and finalize_delimiter: erases the type of a container in flash. */
    method Invalidate(page: nat, at: nat, ghost i: nat)
      requires Valid() && low <= i < |log| && IsPlace(page, at, i)
      modifies this`data, this`log
      ensures Valid() && log == old(log)[i := Deleted(old(log)[i])]
    {
      Parts();
      var o, bytes := TypeErased(coder, headers, data, page, at, pageCount, offset, log, low, firsts, i);
      ghost var before := data;
      WriteToFlash(o, bytes);
      StoreDelete(coder, headers, before, pageCount, offset, log, low, firsts, i, data);
      log := log[i := Deleted(log[i])];
    }

    /** release_first_page */
    method ReleaseFirstPage()
      requires Valid() && |headers| > 1
      modifies this`headers, this`data, this`index, this`low, this`firsts
      ensures |old(firsts)| > 1 && low == old(firsts)[1] <= |log| && low >= old(low) && Free() == old(Free()) + 2040
      ensures Valid() && headers == old(headers)[1..] && index == old(index) - 1 && firsts == old(firsts)[1..]
    {
      Parts();
      StoreRelease(coder, headers, data, pageCount, offset, log, low, firsts);
      low := firsts[1];
      headers, data, firsts := headers[1..], data[2040..], firsts[1..];
      index := index - 1;
    }

    /** add_delimiter */
    method AddDelimiter() returns (rc: Code)
      requires Valid()
      modifies this`headers, this`data, this`index, this`offset, this`log, this`firsts
      ensures rc == if CONTAINER_SIZE < old(Free()) then Success else Reboot
      ensures rc == Success ==>
                && Valid() && old(headers) <= headers && old(firsts) <= firsts
                && log == old(log) + [Item(old(To()), NN_OBJ_TRANSACTION_DEL, NN_OBJ_TRANSACTION_DEL, 0, [])]
                && Advanced(|old(headers)|, old(offset), CONTAINER_SIZE) && Free() == old(Free()) - CONTAINER_SIZE
    {
      rc := SaveContainer(NN_OBJ_TRANSACTION_DEL, 0, []);
    }

    /** add_final_delimiter */
    method AddFinalDelimiter() returns (rc: Code)
      requires Valid()
      modifies this`headers, this`data, this`index, this`offset, this`log, this`firsts
      ensures rc == if CONTAINER_SIZE < old(Free()) then Success else Reboot
      ensures rc == Success ==>
                && Valid() && old(headers) <= headers && old(firsts) <= firsts
                && log == old(log) + [Item(old(To()), NN_OBJ_OLD_COPY, NN_OBJ_TRANSACTION_DEL, 0, [])]
                && Advanced(|old(headers)|, old(offset), CONTAINER_SIZE) && Free() == old(Free()) - CONTAINER_SIZE
    {
      var page, at := headers[index].number, offset;
      ghost var n := |log|;
      LowInLog();
      rc := AddDelimiter();
      if rc == Success {
        Invalidate(page, at, n);
      }
    }

    /** There is just one way to be at the next free place. */
    lemma SamePlace(at: Tracker)
      requires Valid() && To() >= 0 && AtPos(headers, at, To())
      ensures at.index == index && at.offset == offset && at.page == Some(headers[index].number)
    {
      Parts();
      StoreListed(coder, headers, data, pageCount, offset, log, low, firsts);
    }

    lemma LowInLog()
      requires Valid()
      ensures low <= |log| && To() >= 0 && At(EMPTY_TRACKER, low)
    {
      Parts();
      ChainedLength(log, low, PageStart(headers[0]), To());
      ChainedItem(log, low, PageStart(headers[0]), To(), low);
    }
  }
}
