/**
 * The parts of libva the encoder calls, as an abstract driver: every call
 * may fail. The driver's state is the live buffers with what they hold and
 * the mapped buffers; ghost logs record every buffer handed out and every
 * vaDestroyBuffer call. The surface queue is an oracle that either takes
 * a frame's buffers or refuses them.
 */
module Va {
  import opened Words
  import opened VaapiCommon
  import opened H264Params

  type BufferId = u32
  type SurfaceId = u32

  /** VA_INVALID_ID */
  const VA_INVALID_ID: u32 := 0xffff_ffff

  datatype PackedHeaderType = PackedHeaderSequence | PackedHeaderPicture

  /** VAEncMiscParameterRateControl and VAEncMiscParameterHRD. */
  datatype MiscParameter =
    | RateControl(bitsPerSecond: u32, targetPercentage: nat, windowSize: u32,
                  initialQp: u32, minQp: nat, basicUnitSize: nat, disableFrameSkip: bool)
    | HrdParameter(initialBufferFullness: u32, bufferSize: u32)

  /** A buffer's type together with what it holds. */
  datatype BufferContent =
    | SequenceParameterBuffer(sps: Sps)
    | PictureParameterBuffer(pps: Pps)
    | SliceParameterBuffer(slice: Slice)
      /** A misc buffer as vaCreateBuffer fills it, from the raw parameter;
          its type header is only written through a mapping. */
    | MiscParameterBufferRaw(param: MiscParameter)
    | MiscParameterBuffer(param: MiscParameter)
    | PackedHeaderParameterBuffer(headerType: PackedHeaderType, bitLength: u32, hasEmulationBytes: bool)
    | PackedHeaderDataBuffer(data: seq<u8>)
    | CodedBuffer(size: u32)

  /** The VADisplay with its context. */
  class VaDisplay {
    var buffers: map<BufferId, BufferContent>
    var mapped: set<BufferId>
    ghost var created: seq<BufferId>
    ghost var destroyed: seq<BufferId>

    ghost predicate Valid()
      reads this
    {
      && VA_INVALID_ID !in buffers && mapped <= buffers.Keys
      && (forall id :: id in buffers ==> id in created)
    }

    constructor ()
      ensures Valid() && buffers == map[] && mapped == {} && created == [] && destroyed == []
    {
      buffers, mapped, created, destroyed := map[], {}, [], [];
    }

    /** vaCreateBuffer: on success with a valid id, a new live buffer. */
    method CreateBuffer(content: BufferContent) returns (status: VAStatus, id: BufferId)
      requires Valid()
      modifies this
      ensures Valid() && mapped == old(mapped) && destroyed == old(destroyed)
      ensures status == VA_STATUS_SUCCESS && id != VA_INVALID_ID ==>
                id !in old(buffers) && buffers == old(buffers)[id := content]
                && created == old(created) + [id]
      ensures !(status == VA_STATUS_SUCCESS && id != VA_INVALID_ID) ==>
                buffers == old(buffers) && created == old(created)
    {
      status := *;
      id := *;
      if status == VA_STATUS_SUCCESS && id != VA_INVALID_ID {
        if id in buffers {
          status := -1;
        } else {
          buffers, created := buffers[id := content], created + [id];
        }
      }
    }

    /** vaDestroyBuffer: logged whatever the outcome. */
    method DestroyBuffer(id: BufferId) returns (status: VAStatus)
      requires Valid()
      modifies this
      ensures Valid() && created == old(created) && destroyed == old(destroyed) + [id]
      ensures buffers == old(buffers) - {id} && mapped == old(mapped) - {id}
    {
      status := if id in buffers then VA_STATUS_SUCCESS else -1;
      buffers, mapped, destroyed := buffers - {id}, mapped - {id}, destroyed + [id];
    }

    /** vaMapBuffer: success maps a live buffer. */
    method MapBuffer(id: BufferId) returns (status: VAStatus)
      requires Valid()
      modifies this
      ensures Valid() && buffers == old(buffers)
      ensures created == old(created) && destroyed == old(destroyed)
      ensures status == VA_STATUS_SUCCESS ==> id in buffers && mapped == old(mapped) + {id}
      ensures status != VA_STATUS_SUCCESS ==> mapped == old(mapped)
    {
      status := *;
      if id !in buffers {
        status := -1;
      }
      if status == VA_STATUS_SUCCESS {
        mapped := mapped + {id};
      }
    }

    /** A store through the mapping of a buffer. */
    method WriteMapped(id: BufferId, content: BufferContent)
      requires Valid() && id in mapped
      modifies this
      ensures Valid() && mapped == old(mapped)
      ensures created == old(created) && destroyed == old(destroyed)
      ensures buffers == old(buffers)[id := content]
    {
      buffers := buffers[id := content];
    }

    /** vaUnmapBuffer: the mapping ends whatever the status. */
    method UnmapBuffer(id: BufferId) returns (status: VAStatus)
      requires Valid()
      modifies this
      ensures Valid() && buffers == old(buffers)
      ensures created == old(created) && destroyed == old(destroyed)
      ensures mapped == old(mapped) - {id}
    {
      status := *;
      mapped := mapped - {id};
    }
  }

  /** What surface_entry_t hands to the queue. */
  datatype SurfaceEntry = SurfaceEntry(surface: SurfaceId, output: BufferId,
                                       list: seq<BufferId>, pts: nat, sliceType: SliceType)

  /** surface_queue_t, reduced to the record of the entries it accepted. */
  class SurfaceQueue {
    ghost var accepted: seq<SurfaceEntry>

    constructor ()
      ensures accepted == []
    {
      accepted := [];
    }

    /** surface_queue_push_and_render: takes the entry, or refuses it. */
    method PushAndRender(e: SurfaceEntry) returns (ok: bool)
      modifies this
      ensures accepted == if ok then old(accepted) + [e] else old(accepted)
    {
      ok := *;
      if ok {
        accepted := accepted + [e];
      }
    }
  }
}
