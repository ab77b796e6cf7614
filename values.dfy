/**
 * The Python values the conversion layer of ros_msgdict handles: the plain
 * trees read from YAML or the ROS parameter server, the ROS message objects
 * of genpy, and the two ways a call can end (a return value or an exception).
 */
module PyValues {

  datatype Option<+T> = None | Some(value: T)

  /**
   * A genpy.Message instance: its schema name `_type` (for example
   * "geometry_msgs/PoseStamped", or "pkg/FooRequest" for a service request)
   * and its slot values, which only the external message converter reads.
   */
  datatype RosMessage = RosMessage(msgType: string, slots: map<string, Value>)

  /**
   * A Python 2 value as it appears in a plain tree. `Str` is both `str` and
   * `unicode`: `isUnicode` tells which, since `isinstance(u, str)` is false
   * for a `unicode` object. `Msg` is a message object met where a tree or a
   * message is expected.
   */
  datatype Value =
    | Null
    | Bool(b: bool)
    | Int(i: int)
    | Float(f: real)
    | Str(s: string, isUnicode: bool)
    | List(items: seq<Value>)
    | Dict(entries: map<string, Value>)
    | Msg(msg: RosMessage)

  /** The exception the core can raise itself: `.keys()` on an entry that is not a dict. */
  datatype PyException = AttributeError(key: string)

  /** A call either returns a value or raises. */
  datatype Outcome<+T> = Returned(value: T) | Raised(exc: PyException)

  /**
   * `order` is the order in which `for key in d.keys()` visits the keys of a
   * dict whose key set is `keys`: every key exactly once.
   */
  predicate IsIterationOrder(order: seq<string>, keys: set<string>) {
    && (forall i, j :: 0 <= i < j < |order| ==> order[i] != order[j])
    && (forall i :: 0 <= i < |order| ==> order[i] in keys)
    && (forall k :: k in keys ==> k in order)
  }
}
