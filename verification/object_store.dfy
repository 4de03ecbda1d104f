/**
 * The object store the handler talks to: S3 reduced to a map from bucket and
 * key to the object's bytes, a ranged read of bytes 0-11 that can fail, and a
 * delete that can fail. Which reads and deletes fail is part of the store's
 * state (`unreadable`, `undeletable`): it stands for the transport and
 * permission errors the handler cannot predict. Every read and every delete
 * the handler issues is recorded in a ghost log, so that contracts can say
 * which requests were made and in what order.
 */
module ObjectStore {

  datatype ObjectId = ObjectId(bucket: string, key: string)

  /**
   * What the ranged `GetObjectCommand` followed by `transformToByteArray`
   * yields: an error thrown by either, or the bytes. A response without a
   * body is handled exactly like an empty one and is written `Body([])`.
   */
  datatype ReadResult = ReadFailed | Body(bytes: seq<bv8>)

  /** The read window 'bytes=0-11'. */
  const RangeLength: nat := 12

  /** The ranged read of the first 12 bytes of `id`, against the given contents and failures. */
  function RangedRead(objects: map<ObjectId, seq<bv8>>, unreadable: set<ObjectId>, id: ObjectId): (r: ReadResult)
    ensures r.ReadFailed? <==> id in unreadable || id !in objects
    ensures r.Body? ==> id in objects && |r.bytes| <= RangeLength && |r.bytes| <= |objects[id]| && r.bytes == objects[id][..|r.bytes|]
    ensures r.Body? ==> |r.bytes| == RangeLength || r.bytes == objects[id]
  {
    if id in unreadable || id !in objects then ReadFailed
    else if |objects[id]| <= RangeLength then Body(objects[id])
    else Body(objects[id][..RangeLength])
  }

  class Store {
    var objects: map<ObjectId, seq<bv8>>
    /** Objects whose ranged read throws. */
    var unreadable: set<ObjectId>
    /** Objects whose delete throws. */
    var undeletable: set<ObjectId>
    /** Every ranged read issued, in order. */
    ghost var readLog: seq<ObjectId>
    /** Every delete issued, in order. */
    ghost var deleteLog: seq<ObjectId>

    constructor (objects: map<ObjectId, seq<bv8>>, unreadable: set<ObjectId>, undeletable: set<ObjectId>)
      ensures this.objects == objects && this.unreadable == unreadable && this.undeletable == undeletable
      ensures readLog == [] && deleteLog == []
    {
      this.objects := objects;
      this.unreadable := unreadable;
      this.undeletable := undeletable;
      readLog := [];
      deleteLog := [];
    }

    /** `GetObjectCommand` with `Range: 'bytes=0-11'`: changes nothing but the log. */
    method GetRange(id: ObjectId) returns (r: ReadResult)
      modifies this`readLog
      ensures r == RangedRead(objects, unreadable, id)
      ensures readLog == old(readLog) + [id]
    {
      r := RangedRead(objects, unreadable, id);
      readLog := readLog + [id];
    }

    /** `DeleteObjectCommand`: `ok` is false when it throws; deleting an absent object succeeds. */
    method Delete(id: ObjectId) returns (ok: bool)
      modifies this`objects, this`deleteLog
      ensures ok <==> id !in undeletable
      ensures objects == if ok then old(objects) - {id} else old(objects)
      ensures deleteLog == old(deleteLog) + [id]
    {
      ok := id !in undeletable;
      if ok {
        objects := objects - {id};
      }
      deleteLog := deleteLog + [id];
    }
  }
}
