/** The object record of the toy VM heap: five kinds of object that share one
    record, a one-bit mark flag, and the payload of whichever kind is active. */
module Objects {

  /** Number of slots in the root stack. */
  const MAX_STACK_SIZE: int := 256

  /** The five kinds of object; every object has exactly one of them. */
  datatype ObjectType =
    | Value          // a single integer
    | ReferencePair  // two reassignable references, head and tail
    | Array          // a fixed number of reassignable reference slots
    | FrameMarker    // delimits a simulated call frame on the root stack
    | StartOfStack   // the bottom of the root stack, one per VM

  /** A heap object. The payload fields share storage in the original record,
      so only the ones that belong to `objectType` mean anything: `value` for
      a Value, `head`/`tail` for a ReferencePair, `objects` for an Array (whose
      length is the array's size). The other kinds carry an empty slot buffer. */
  class Obj {
    const objectType: ObjectType
    var marked: bool
    var value: int
    var head: Obj?
    var tail: Obj?
    var objects: array<Obj?>

    /** A fresh, unmarked object of the given kind with an empty payload. */
    constructor (objectType: ObjectType)
      ensures this.objectType == objectType && !marked
      ensures value == 0 && head == null && tail == null
      ensures fresh(objects) && objects.Length == 0
    {
      this.objectType := objectType;
      marked := false;
      value := 0;
      head := null;
      tail := null;
      objects := new Obj?[0];
    }

    /** The references the mark phase follows out of this object, in the
        order it follows them; null entries are possible and are skipped. */
    function Children(): seq<Obj?>
      reads this`head, this`tail, this`objects, objects
    {
      match objectType
      case ReferencePair => [head, tail]
      case Array => objects[..]
      case _ => []
    }

    /** Every non-null reference this object holds is in `s`. */
    ghost predicate HoldsOnly(s: set<Obj>)
      reads this`head, this`tail, this`objects, objects
    {
      forall x :: x in Children() && x != null ==> x in s
    }

  }
}
