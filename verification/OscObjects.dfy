/**
 Messages and bundles as objects on the heap. A message owns the argument objects it points to; a bundle holds
 its messages and sub-bundles by value, so everything put into a bundle is a fresh deep copy.
 */
module OscObjects {
  import opened Bytes
  import Binary32
  import V = OscValues

  datatype ArgType = TypeNone | TypeInt32 | TypeFloat | TypeString

  /** The base class has no value and type "none"; each subclass carries one kind of value. */
  datatype ArgContent = Base | Typed(value: V.Arg)

  /**
   What a getter returns or throws. Undefined: the C++ standard does not say what comes of it, which is so for a
   conversion out of range and for a negative index.
   */
  datatype Result<+T> = Success(value: T) | InvalidArgumentType | OutOfBounds | Undefined

  function FromOption<T>(o: Option<T>): Result<T> {
    match o
    case Some(x) => Success(x)
    case None => Undefined
  }

  function AsInt32(m: V.Message, index: int, typeConvert: bool): Result<int32> {
    if index >= |m.args| then OutOfBounds else if index < 0 then Undefined else
    match m.args[index]
    case Int32(i) => Success(i)
    case Float(bits) => if typeConvert then FromOption(Binary32.FloatToInt(bits)) else InvalidArgumentType
    case Str(_) => InvalidArgumentType
  }

  function AsFloat(m: V.Message, index: int, typeConvert: bool): Result<uint32> {
    if index >= |m.args| then OutOfBounds else if index < 0 then Undefined else
    match m.args[index]
    case Float(bits) => Success(bits)
    case Int32(i) => if typeConvert then Success(Binary32.IntToFloat(i)) else InvalidArgumentType
    case Str(_) => InvalidArgumentType
  }

  /** What reading an argument as an int32 may come to; a converted float is truncated towards zero, if that fits. */
  ghost predicate ReadsInt32(a: V.Arg, typeConvert: bool, r: Result<int32>) {
    match a
    case Int32(i) => r == Success(i)
    case Str(_) => r == InvalidArgumentType
    case Float(bits) =>
      if !typeConvert then r == InvalidArgumentType
      else match r
        case Success(i) => Binary32.Finite(bits) && Binary32.Truncates(bits, i)
        case Undefined => OutOfRange(bits)
        case _ => false
  }

  ghost predicate OutOfRange(bits: uint32) {
    Binary32.Finite(bits) ==> forall i: int32 :: !Binary32.Truncates(bits, i)
  }

  /** And as a float: a converted int32 becomes a float that no other one beats, the even one of two equally close. */
  ghost predicate ReadsFloat(a: V.Arg, typeConvert: bool, r: Result<uint32>) {
    match a
    case Float(bits) => r == Success(bits)
    case Str(_) => r == InvalidArgumentType
    case Int32(n) =>
      if !typeConvert then r == InvalidArgumentType
      else r.Success? && Binary32.IsNearest(n, r.value) && Binary32.StandsFor(r.value, Binary32.SignedRounded(n))
  }

  lemma AsInt32Reads(m: V.Message, index: nat, typeConvert: bool)
    requires index < |m.args|
    ensures ReadsInt32(m.args[index], typeConvert, AsInt32(m, index, typeConvert))
  {
    hide Binary32.FloatToInt, Binary32.Truncates, Binary32.Finite;
    match m.args[index]
    case Int32(_) =>
    case Str(_) =>
    case Float(bits) =>
      forall i: int32
        ensures Binary32.FloatToInt(bits) == Some(i) <==> Binary32.Finite(bits) && Binary32.Truncates(bits, i)
      {
        Binary32.FloatToIntExactly(bits, i);
      }
  }

  lemma AsFloatReads(m: V.Message, index: nat, typeConvert: bool)
    requires index < |m.args|
    ensures ReadsFloat(m.args[index], typeConvert, AsFloat(m, index, typeConvert))
  {
    hide Binary32.IntToFloat, Binary32.IsNearest, Binary32.StandsFor, Binary32.SignedRounded;
    match m.args[index]
    case Float(_) =>
    case Str(_) =>
    case Int32(n) => Binary32.IntToFloatNearest(n);
  }

  /**
   An int32 read as a float and the float as an int32, both with conversion, whatever the getters return: there is a
   result for every n up to 2^31 - 65 and for no other, it is within 64 of n, and n itself up to 2^24.
   */
  lemma ReadThereAndBack(n: int32, f: Result<uint32>, r: Result<int32>)
    requires ReadsFloat(V.Int32(n), true, f) && ReadsInt32(V.Float(f.value), true, r)
    ensures r.Success? <==> n <= 0x7FFF_FFBF
    ensures r.Success? ==> Binary32.Magnitude(r.value - n) <= 64
    ensures r.Success? && Binary32.Magnitude(n) <= 0x100_0000 ==> r.value == n
  {
    hide Binary32.IntToFloat, Binary32.IsNearest, Binary32.StandsFor, Binary32.SignedRounded, Binary32.FloatToInt;
    hide Binary32.Truncates, Binary32.Finite;
    var v := Binary32.SignedRounded(n);
    Binary32.ThereAndBack(n);
    Binary32.RoundedRange(n);
    assert Binary32.Finite(f.value) by { Binary32.StandsForFinite(f.value, v); }
    forall i: int ensures Binary32.Truncates(f.value, i) <==> i == v {
      Binary32.TruncatesWhole(f.value, v, i);
    }
    if n <= 0x7FFF_FFBF {
      var fits: int32 := v;
      assert Binary32.Truncates(f.value, fits);
    }
  }

  class Arg {
    const content: ArgContent
    ghost const owner: Message

    constructor (content: ArgContent, ghost owner: Message)
      ensures this.content == content && this.owner == owner
    {
      this.content := content;
      this.owner := owner;
    }

    function GetType(): ArgType {
      match content
      case Base => TypeNone
      case Typed(Int32(_)) => TypeInt32
      case Typed(Float(_)) => TypeFloat
      case Typed(Str(_)) => TypeString
    }
  }

  /** The C++ heap, as far as ownership goes: the argument objects not yet deleted and the messages alive. */
  class Heap {
    ghost var live: set<Arg>
    ghost var messages: set<Message>

    constructor ()
      ensures Valid() && live == {} && messages == {}
    {
      live, messages := {}, {};
    }

    /** Every live argument is one of the arguments of the one message that owns it, which is alive. */
    ghost predicate Valid()
      reads this, messages
    {
      && (forall m :: m in messages ==> m.Valid() && forall a :: a in m.args ==> a in live)
      && (forall a :: a in live ==> a.owner in messages && a in a.owner.args)
    }

    /** The delete operator: only a live object may be deleted. */
    ghost method Delete(a: Arg)
      requires a in live
      modifies this`live
      ensures live == old(live) - {a}
    {
      live := live - {a};
    }
  }

  /** In a valid heap every live argument has one owner only, and carries a value of one of the three types. */
  lemma OneOwner(heap: Heap, a: Arg)
    requires heap.Valid() && a in heap.live
    ensures forall m :: m in heap.messages ==> (a in m.args <==> m == a.owner)
    ensures a.GetType() != TypeNone
  {
    var i :| 0 <= i < |a.owner.args| && a.owner.args[i] == a;
  }

  class Message {
    var address: bytes
    var args: seq<Arg>
    var remoteHost: bytes
    var remotePort: int

    ghost var value: V.Message

    /** The arguments are distinct objects of this message, none is of the base class, and they make up its value. */
    ghost predicate Valid()
      reads this
    {
      && value.address == address && |value.args| == |args|
      && (forall i :: 0 <= i < |args| ==> args[i].owner == this && args[i].content == Typed(value.args[i]))
      && (forall i, j :: 0 <= i < j < |args| ==> args[i] != args[j])
    }

    /** The port is left uninitialised: any number. */
    constructor (ghost heap: Heap)
      requires heap.Valid()
      modifies heap
      ensures heap.Valid() && heap.messages == old(heap.messages) + {this} && heap.live == old(heap.live)
      ensures value == V.Message([], []) && remoteHost == []
    {
      address, args, remoteHost, remotePort := [], [], [], *;
      value := V.Message([], []);
      new;
      heap.messages := heap.messages + {this};
    }

    constructor CopyOf(other: Message, ghost heap: Heap)
      requires heap.Valid() && other in heap.messages
      modifies heap
      ensures heap.Valid() && heap.messages == old(heap.messages) + {this}
      ensures fresh(heap.live - old(heap.live)) && old(heap.live) <= heap.live
      ensures value == other.value && remoteHost == other.remoteHost && remotePort == other.remotePort
    {
      address, args, remoteHost, remotePort := [], [], [], *;
      value := V.Message([], []);
      new;
      heap.messages := heap.messages + {this};
      Copy(other, heap);
    }

    method SetAddress(address: bytes, ghost heap: Heap)
      requires heap.Valid() && this in heap.messages
      modifies this`address, this`value
      ensures heap.Valid() && this.address == address && value == old(value).(address := address)
    {
      this.address := address;
      value := value.(address := address);
    }

    method SetRemoteEndpoint(host: bytes, port: int, ghost heap: Heap)
      requires heap.Valid() && this in heap.messages
      modifies this`remoteHost, this`remotePort
      ensures heap.Valid() && remoteHost == host && remotePort == port
    {
      remoteHost := host;
      remotePort := port;
    }

    /** args.push_back(new ...) */
    method Push(a: V.Arg, ghost heap: Heap)
      requires heap.Valid() && this in heap.messages
      modifies this`args, this`value, heap`live
      ensures heap.Valid() && fresh(heap.live - old(heap.live)) && old(heap.live) <= heap.live
      ensures |args| == |old(args)| + 1 && args[..|old(args)|] == old(args)
      ensures heap.live == old(heap.live) + {args[|old(args)|]}
      ensures value == old(value).(args := old(value).args + [a])
    {
      var arg := new Arg(Typed(a), this);
      args := args + [arg];
      value := value.(args := value.args + [a]);
      heap.live := heap.live + {arg};
    }

    method Clear(ghost heap: Heap)
      requires heap.Valid() && this in heap.messages
      modifies this`args, this`address, this`value, heap`live
      ensures heap.Valid() && heap.live == old(heap.live) - (set a | a in old(args))
      ensures args == [] && value == V.Message([], [])
    {
      ghost var before := heap.live;
      for i := 0 to |args|
        invariant heap.live == before - (set a | a in args[..i])
      {
        assert args[i] !in args[..i];
        heap.Delete(args[i]);
        assert args[..i + 1] == args[..i] + [args[i]];
      }
      assert args[..|args|] == args;
      args := [];
      address := [];
      value := V.Message([], []);
    }

    /** Destruction: clear, and the object is gone. */
    method Destroy(ghost heap: Heap)
      requires heap.Valid() && this in heap.messages
      modifies this`args, this`address, this`value, heap
      ensures heap.Valid() && heap.messages == old(heap.messages) - {this}
      ensures heap.live == old(heap.live) - (set a | a in old(args))
    {
      Clear(heap);
      heap.messages := heap.messages - {this};
    }

    function GetArgType(index: int): Result<ArgType>
      reads this
    {
      if index >= |args| then OutOfBounds else if index < 0 then Undefined else Success(args[index].GetType())
    }

    /** The arguments are never of the base class, so the answer depends on the value of the message alone. */
    method GetArgAsInt32(index: int, typeConvert: bool) returns (r: Result<int32>)
      requires Valid()
      ensures r == AsInt32(value, index, typeConvert)
      ensures 0 <= index < |value.args| ==> ReadsInt32(value.args[index], typeConvert, r)
      ensures index >= |value.args| ==> r == OutOfBounds
    {
      hide Binary32.FloatToInt, ReadsInt32;
      if 0 <= index < |value.args| {
        AsInt32Reads(value, index, typeConvert);
      }
      if index >= |args| {
        return OutOfBounds;
      }
      if index < 0 {
        return Undefined;
      }
      if GetArgType(index) != Success(TypeInt32) {
        if typeConvert && GetArgType(index) == Success(TypeFloat) {
          return FromOption(Binary32.FloatToInt(args[index].content.value.bits));
        }
        return InvalidArgumentType;
      }
      r := Success(args[index].content.value.i);
    }

    method GetArgAsFloat(index: int, typeConvert: bool) returns (r: Result<uint32>)
      requires Valid()
      ensures r == AsFloat(value, index, typeConvert)
      ensures 0 <= index < |value.args| ==> ReadsFloat(value.args[index], typeConvert, r)
      ensures index >= |value.args| ==> r == OutOfBounds
    {
      hide Binary32.IntToFloat, ReadsFloat;
      if 0 <= index < |value.args| {
        AsFloatReads(value, index, typeConvert);
      }
      if index >= |args| {
        return OutOfBounds;
      }
      if index < 0 {
        return Undefined;
      }
      if GetArgType(index) != Success(TypeFloat) {
        if typeConvert && GetArgType(index) == Success(TypeInt32) {
          return Success(Binary32.IntToFloat(args[index].content.value.i));
        }
        return InvalidArgumentType;
      }
      r := Success(args[index].content.value.bits);
    }

    /** Without conversion, as copying and sending use it. */
    method GetArgAsString(index: int) returns (r: Result<bytes>)
      requires Valid()
      ensures r == if index >= |value.args| then OutOfBounds else if index < 0 then Undefined
                   else match value.args[index] case Str(s) => Success(s) case _ => InvalidArgumentType
    {
      if index >= |args| {
        return OutOfBounds;
      }
      if index < 0 {
        return Undefined;
      }
      if GetArgType(index) != Success(TypeString) {
        return InvalidArgumentType;
      }
      r := Success(args[index].content.value.s);
    }

    /** One round of the copying loop. The branch for a type that is none of the three cannot be reached. */
    method CopyArg(other: Message, i: nat, ghost heap: Heap)
      requires heap.Valid() && this in heap.messages && other in heap.messages && other != this && i < |other.args|
      modifies this`args, this`value, heap`live
      ensures heap.Valid() && fresh(heap.live - old(heap.live)) && old(heap.live) <= heap.live
      ensures |args| == |old(args)| + 1 && args[..|old(args)|] == old(args)
      ensures heap.live == old(heap.live) + {args[|old(args)|]}
      ensures value == old(value).(args := old(value).args + [other.value.args[i]])
    {
      var argType := other.GetArgType(i);
      if argType == Success(TypeInt32) {
        var r := other.GetArgAsInt32(i, false);
        Push(V.Int32(r.value), heap);
      } else if argType == Success(TypeFloat) {
        var r := other.GetArgAsFloat(i, false);
        Push(V.Float(r.value), heap);
      } else if argType == Success(TypeString) {
        var r := other.GetArgAsString(i);
        Push(V.Str(r.value), heap);
      } else {
        assert false;
      }
    }

    method CopyHeader(other: Message, ghost heap: Heap)
      requires heap.Valid() && this in heap.messages && other in heap.messages
      modifies this`address, this`value, this`remoteHost, this`remotePort
      ensures heap.Valid() && |other.value.args| == |other.args|
      ensures value == V.Message(other.value.address, old(value).args)
      ensures remoteHost == other.remoteHost && remotePort == other.remotePort
    {
      address := other.address;
      value := value.(address := other.value.address);
      remoteHost := other.remoteHost;
      remotePort := other.remotePort;
    }

    /** Copying appends fresh arguments, so assignment makes the two messages equal only if the target had none. */
    method Copy(other: Message, ghost heap: Heap)
      requires heap.Valid() && this in heap.messages && other in heap.messages && other != this
      modifies this, heap`live
      ensures heap.Valid() && fresh(heap.live - old(heap.live)) && old(heap.live) <= heap.live
      ensures |args| == |old(args)| + |other.args| && args[..|old(args)|] == old(args)
      ensures heap.live == old(heap.live) + (set a | a in args[|old(args)|..])
      ensures value == V.Message(other.value.address, old(value).args + other.value.args)
      ensures value == other.value <==> old(value).args == []
      ensures remoteHost == other.remoteHost && remotePort == other.remotePort
    {
      hide Heap.Valid, Message.Valid;
      CopyHeader(other, heap);
      for i := 0 to |other.args|
        invariant heap.Valid() && |other.value.args| == |other.args|
        invariant fresh(heap.live - old(heap.live)) && old(heap.live) <= heap.live
        invariant |args| == |old(args)| + i && args[..|old(args)|] == old(args)
        invariant heap.live == old(heap.live) + (set a | a in args[|old(args)|..])
        invariant value == V.Message(other.value.address, old(value).args + other.value.args[..i])
        invariant remoteHost == other.remoteHost && remotePort == other.remotePort
      {
        ghost var before, live := args, heap.live;
        CopyArg(other, i, heap);
        Grown(old(args), before, args, old(heap.live), live, heap.live);
        assert other.value.args[..i + 1] == other.value.args[..i] + [other.value.args[i]];
      }
      AssignedMessage(old(value), other.value);
    }
  }

  /** Assignment makes a message equal to its source exactly if it had no arguments before. */
  lemma AssignedMessage(target: V.Message, source: V.Message)
    ensures V.Message(source.address, target.args + source.args) == source <==> target.args == []
  {
    if target.args == [] {
      assert target.args + source.args == source.args;
    } else {
      assert |target.args + source.args| > |source.args|;
    }
  }

  /** And a bundle exactly if it was empty. */
  lemma AssignedBundle(target: V.Bundle, source: V.Bundle)
    ensures V.Bundle(target.bundles + source.bundles, target.messages + source.messages) == source <==>
            target == V.Bundle([], [])
  {
    if target == V.Bundle([], []) {
      assert target.bundles + source.bundles == source.bundles && target.messages + source.messages == source.messages;
    } else {
      assert || |target.bundles + source.bundles| > |source.bundles|
             || |target.messages + source.messages| > |source.messages|;
    }
  }

  /** One more argument behind those that have been added since the start. */
  lemma Grown(start: seq<Arg>, before: seq<Arg>, after: seq<Arg>, live0: set<Arg>, live1: set<Arg>, live2: set<Arg>)
    requires |start| <= |before| && before[..|start|] == start
    requires |after| == |before| + 1 && after[..|before|] == before
    requires live1 == live0 + (set a | a in before[|start|..]) && live2 == live1 + {after[|before|]}
    ensures after[..|start|] == start
    ensures live2 == live0 + (set a | a in after[|start|..])
  {
    assert after[|start|..] == before[|start|..] + [after[|before|]];
    assert after[..|start|] == after[..|before|][..|start|];
  }

  /** Growth in two steps: what a tree has gained is what the heap has gained. */
  lemma Joined(owned0: set<Message>, owned1: set<Message>, owned2: set<Message>,
               heap0: set<Message>, heap1: set<Message>, heap2: set<Message>)
    requires owned0 <= owned1 <= owned2
    requires heap1 == heap0 + (owned1 - owned0) && heap2 == heap1 + (owned2 - owned1)
    ensures owned0 <= owned2 && heap2 == heap0 + (owned2 - owned0)
    ensures owned2 - owned0 == (owned1 - owned0) + (owned2 - owned1)
  {
  }

  /** Every owned message is still at some place in the tree after one more sub-bundle has been put there. */
  lemma Covered(owned: set<Message>, messages: seq<Message>, bundles: seq<Bundle>, copy: Bundle)
    requires forall m :: m in owned ==> m in messages || exists i :: 0 <= i < |bundles| && m in bundles[i].owned
    ensures forall m :: m in owned + copy.owned ==>
      m in messages || exists i :: 0 <= i < |bundles + [copy]| && m in (bundles + [copy])[i].owned
  {
    forall m | m in owned + copy.owned
      ensures m in messages || exists i :: 0 <= i < |bundles + [copy]| && m in (bundles + [copy])[i].owned
    {
      if m in copy.owned {
        assert (bundles + [copy])[|bundles|] == copy;
      } else if m !in messages {
        var i :| 0 <= i < |bundles| && m in bundles[i].owned;
        assert (bundles + [copy])[i] == bundles[i];
      }
    }
  }

  class Bundle {
    var messages: seq<Message>
    var bundles: seq<Bundle>

    /** The bundle objects of the tree, this one included, its messages at all depths, and its value. */
    ghost var parts: set<Bundle>
    ghost var owned: set<Message>
    ghost var value: V.Bundle

    ghost predicate Valid()
      reads this, parts, owned
      decreases parts
    {
      && this in parts
      && |value.bundles| == |bundles| && |value.messages| == |messages|
      && (forall i :: 0 <= i < |bundles| ==>
            && bundles[i] in parts && bundles[i].parts <= parts && this !in bundles[i].parts
            && bundles[i].owned <= owned
            && bundles[i].Valid() && bundles[i].value == value.bundles[i])
      && (forall i :: 0 <= i < |messages| ==>
            messages[i] in owned && messages[i].Valid() && messages[i].value == value.messages[i])
      && Separate()
    }

    /** No two places in the tree share an object. */
    ghost predicate Separate()
      reads this, parts
      requires forall i :: 0 <= i < |bundles| ==> bundles[i] in parts
    {
      && (forall i, j :: 0 <= i < j < |bundles| ==>
            bundles[i].parts !! bundles[j].parts && bundles[i].owned !! bundles[j].owned)
      && (forall i, j :: 0 <= i < |messages| && 0 <= j < |bundles| ==> messages[i] !in bundles[j].owned)
      && (forall i, j :: 0 <= i < j < |messages| ==> messages[i] != messages[j])
      && (forall m :: m in owned ==> m in messages || exists i :: 0 <= i < |bundles| && m in bundles[i].owned)
    }

    constructor ()
      ensures Valid() && parts == {this} && owned == {}
      ensures value == V.Bundle([], [])
    {
      messages, bundles := [], [];
      parts, owned := {this}, {};
      value := V.Bundle([], []);
    }

    method AddMessage(message: Message, ghost heap: Heap)
      requires Valid() && heap.Valid() && owned <= heap.messages && message in heap.messages
      modifies this, heap
      ensures Valid() && heap.Valid() && owned <= heap.messages
      ensures parts == old(parts) && bundles == old(bundles)
      ensures fresh(owned - old(owned)) && old(owned) <= owned
      ensures heap.messages == old(heap.messages) + (owned - old(owned))
      ensures fresh(heap.live - old(heap.live)) && old(heap.live) <= heap.live
      ensures value == V.Bundle(old(value).bundles, old(value).messages + [old(message.value)])
    {
      hide Heap.Valid, Valid;
      var copy := new Message.CopyOf(message, heap);
      assert copy.Valid() by { MemberValid(copy, heap); }
      AttachMessage(copy);
    }

    lemma MemberValid(m: Message, heap: Heap)
      requires heap.Valid() && m in heap.messages
      ensures m.Valid()
    {
    }

    /** messages.push_back of a message that is not in the tree yet. */
    method AttachMessage(copy: Message)
      requires Valid() && copy.Valid() && copy !in owned
      modifies this
      ensures Valid() && parts == old(parts) && bundles == old(bundles) && owned == old(owned) + {copy}
      ensures value == V.Bundle(old(value).bundles, old(value).messages + [copy.value])
    {
      hide Heap.Valid, Message.Valid;
      messages := messages + [copy];
      owned := owned + {copy};
      value := value.(messages := value.messages + [copy.value]);
    }

    /** The new sub-bundle is a deep copy, so even the bundle itself or one of its parts may be added. */
    method AddBundle(bundle: Bundle, ghost heap: Heap)
      requires Valid() && heap.Valid() && owned <= heap.messages
      requires bundle.Valid() && bundle.owned <= heap.messages
      modifies this, heap
      ensures Valid() && heap.Valid() && owned <= heap.messages
      ensures fresh(parts - old(parts)) && old(parts) <= parts
      ensures fresh(owned - old(owned)) && old(owned) <= owned
      ensures heap.messages == old(heap.messages) + (owned - old(owned))
      ensures fresh(heap.live - old(heap.live)) && old(heap.live) <= heap.live
      ensures value == V.Bundle(old(value).bundles + [old(bundle.value)], old(value).messages)
      decreases bundle.value, 4
    {
      var copy := new Bundle.CopyOf(bundle, heap);
      Attach(copy);
    }

    /** bundles.push_back of a tree that shares nothing with this one. */
    method Attach(copy: Bundle)
      requires Valid() && copy.Valid() && parts !! copy.parts && owned !! copy.owned
      modifies this
      ensures Valid() && parts == old(parts) + copy.parts && owned == old(owned) + copy.owned
      ensures value == V.Bundle(old(value).bundles + [copy.value], old(value).messages)
    {
      hide Heap.Valid, Message.Valid;
      Covered(owned, messages, bundles, copy);
      bundles := bundles + [copy];
      parts := parts + copy.parts;
      owned := owned + copy.owned;
      value := value.(bundles := value.bundles + [copy.value]);
    }

    /** The copy constructor: a structurally equal tree made of new objects at every depth. */
    constructor CopyOf(other: Bundle, ghost heap: Heap)
      requires heap.Valid() && other.Valid() && other.owned <= heap.messages
      modifies heap
      ensures Valid() && heap.Valid() && fresh(parts) && fresh(owned)
      ensures heap.messages == old(heap.messages) + owned
      ensures fresh(heap.live - old(heap.live)) && old(heap.live) <= heap.live
      ensures value == other.value
      decreases other.value, 3
    {
      messages, bundles := [], [];
      parts, owned := {this}, {};
      value := V.Bundle([], []);
      new;
      Copy(other, heap);
    }

    lemma {:induction false} Sizes()
      requires Valid()
      ensures this in parts && |value.bundles| == |bundles| && |value.messages| == |messages|
    {
    }

    lemma {:induction false} Member(i: nat)
      requires Valid() && i < |bundles|
      ensures |value.bundles| == |bundles| && bundles[i].value == value.bundles[i]
      ensures bundles[i].Valid() && bundles[i].owned <= owned
    {
    }

    lemma {:induction false} MessageMember(i: nat)
      requires Valid() && i < |messages|
      ensures |value.messages| == |messages| && messages[i].value == value.messages[i] && messages[i] in owned
    {
    }

    /** Appends copies of the other bundle's contents behind the contents of this one. */
    method Copy(other: Bundle, ghost heap: Heap)
      requires Valid() && heap.Valid() && owned <= heap.messages
      requires other.Valid() && other.owned <= heap.messages && parts !! other.parts && owned !! other.owned
      modifies this, heap
      ensures Valid() && heap.Valid() && owned <= heap.messages
      ensures fresh(parts - old(parts)) && old(parts) <= parts
      ensures fresh(owned - old(owned)) && old(owned) <= owned
      ensures heap.messages == old(heap.messages) + (owned - old(owned))
      ensures fresh(heap.live - old(heap.live)) && old(heap.live) <= heap.live
      ensures value == V.Bundle(old(value).bundles + other.value.bundles, old(value).messages + other.value.messages)
      ensures value == other.value <==> old(value) == V.Bundle([], [])
      decreases other.value, 2
    {
      hide Heap.Valid, Message.Valid, Separate, Valid;
      CopyBundles(other, heap);
      ghost var before, live := owned, heap.messages;
      CopyMessages(other, heap);
      AssignedBundle(old(value), other.value);
      Joined(old(owned), before, owned, old(heap.messages), live, heap.messages);
    }

    /** One round of the first copying loop. */
    method CopyBundle(other: Bundle, i: nat, ghost heap: Heap)
      requires Valid() && heap.Valid() && owned <= heap.messages
      requires other.Valid() && other.owned <= heap.messages && other != this && this !in other.parts
      requires i < |other.bundles|
      modifies this, heap
      ensures Valid() && heap.Valid() && owned <= heap.messages && unchanged(other) && other.Valid()
      ensures fresh(parts - old(parts)) && old(parts) <= parts
      ensures fresh(owned - old(owned)) && old(owned) <= owned
      ensures heap.messages == old(heap.messages) + (owned - old(owned))
      ensures fresh(heap.live - old(heap.live)) && old(heap.live) <= heap.live
      ensures value == V.Bundle(old(value).bundles + other.value.bundles[i..i + 1], old(value).messages)
      decreases other.value, 0
    {
      other.Member(i);
      hide Heap.Valid, Message.Valid, Separate, Valid;
      AddBundle(other.bundles[i], heap);
      assert [other.value.bundles[i]] == other.value.bundles[i..i + 1];
    }

    method CopyBundles(other: Bundle, ghost heap: Heap)
      requires Valid() && heap.Valid() && owned <= heap.messages
      requires other.Valid() && other.owned <= heap.messages && parts !! other.parts && owned !! other.owned
      modifies this, heap
      ensures Valid() && heap.Valid() && owned <= heap.messages
      ensures unchanged(other) && other.Valid() && this !in other.parts && owned !! other.owned
      ensures fresh(parts - old(parts)) && old(parts) <= parts
      ensures fresh(owned - old(owned)) && old(owned) <= owned
      ensures heap.messages == old(heap.messages) + (owned - old(owned))
      ensures fresh(heap.live - old(heap.live)) && old(heap.live) <= heap.live
      ensures value == V.Bundle(old(value).bundles + other.value.bundles, old(value).messages)
      decreases other.value, 1
    {
      other.Sizes();
      Sizes();
      hide Heap.Valid, Message.Valid, Separate, Valid;
      for i := 0 to |other.bundles|
        invariant Valid() && heap.Valid() && owned <= heap.messages && unchanged(other) && other.Valid()
        invariant fresh(parts - old(parts)) && old(parts) <= parts
        invariant fresh(owned - old(owned)) && old(owned) <= owned
        invariant heap.messages == old(heap.messages) + (owned - old(owned))
        invariant fresh(heap.live - old(heap.live)) && old(heap.live) <= heap.live
        invariant value == V.Bundle(old(value).bundles + other.value.bundles[..i], old(value).messages)
      {
        ghost var before, live := owned, heap.messages;
        CopyBundle(other, i, heap);
        Joined(old(owned), before, owned, old(heap.messages), live, heap.messages);
        assert other.value.bundles[..i + 1] == other.value.bundles[..i] + other.value.bundles[i..i + 1];
      }
    }

    /** One round of the second copying loop. */
    method CopyMessage(other: Bundle, i: nat, ghost heap: Heap)
      requires Valid() && heap.Valid() && owned <= heap.messages
      requires other.Valid() && other.owned <= heap.messages && other != this && this !in other.parts
      requires i < |other.messages|
      modifies this, heap
      ensures Valid() && heap.Valid() && owned <= heap.messages && unchanged(other) && other.Valid()
      ensures parts == old(parts) && fresh(owned - old(owned)) && old(owned) <= owned
      ensures heap.messages == old(heap.messages) + (owned - old(owned))
      ensures fresh(heap.live - old(heap.live)) && old(heap.live) <= heap.live
      ensures value == V.Bundle(old(value).bundles, old(value).messages + other.value.messages[i..i + 1])
    {
      other.MessageMember(i);
      hide Heap.Valid, Message.Valid, Separate, Valid;
      AddMessage(other.messages[i], heap);
      assert [other.value.messages[i]] == other.value.messages[i..i + 1];
    }

    method CopyMessages(other: Bundle, ghost heap: Heap)
      requires Valid() && heap.Valid() && owned <= heap.messages
      requires other.Valid() && other.owned <= heap.messages && this !in other.parts && owned !! other.owned
      modifies this, heap
      ensures Valid() && heap.Valid() && owned <= heap.messages
      ensures parts == old(parts)
      ensures fresh(owned - old(owned)) && old(owned) <= owned
      ensures heap.messages == old(heap.messages) + (owned - old(owned))
      ensures fresh(heap.live - old(heap.live)) && old(heap.live) <= heap.live
      ensures value == V.Bundle(old(value).bundles, old(value).messages + other.value.messages)
    {
      other.Sizes();
      hide Heap.Valid, Message.Valid, Separate, Valid;
      for i := 0 to |other.messages|
        invariant Valid() && heap.Valid() && owned <= heap.messages && other.Valid()
        invariant parts == old(parts)
        invariant fresh(owned - old(owned)) && old(owned) <= owned
        invariant heap.messages == old(heap.messages) + (owned - old(owned))
        invariant fresh(heap.live - old(heap.live)) && old(heap.live) <= heap.live
        invariant value == V.Bundle(old(value).bundles, old(value).messages + other.value.messages[..i])
      {
        ghost var before, live := owned, heap.messages;
        CopyMessage(other, i, heap);
        Joined(old(owned), before, owned, old(heap.messages), live, heap.messages);
        assert other.value.messages[..i + 1] == other.value.messages[..i] + other.value.messages[i..i + 1];
      }
    }

    lemma {:induction false} Members()
      requires Valid()
      ensures Subtrees()
      ensures forall m :: m in owned ==> m in messages || exists k :: 0 <= k < |bundles| && m in bundles[k].owned
      ensures forall i, j :: 0 <= i < j < |messages| ==> messages[i] != messages[j]
      ensures forall i :: 0 <= i < |messages| ==> messages[i] in owned
    {
      hide Heap.Valid, Message.Valid;
    }

    /** The sub-bundles are valid and share nothing with each other or with the messages beside them. */
    ghost predicate Subtrees()
      reads this, parts, owned
    {
      && |value.bundles| == |bundles|
      && (forall k :: 0 <= k < |bundles| ==>
            && bundles[k] in parts && bundles[k].parts <= parts - {this}
            && bundles[k].owned <= owned && bundles[k].owned !! (set m | m in messages)
            && bundles[k].value == value.bundles[k] && bundles[k].Valid())
      && (forall i, j :: 0 <= i < j < |bundles| ==>
            bundles[i].parts !! bundles[j].parts && bundles[i].owned !! bundles[j].owned)
    }

    /** Destroys every message and sub-bundle once; nothing outside the tree is touched. */
    method Clear(ghost heap: Heap)
      requires Valid() && heap.Valid() && owned <= heap.messages
      modifies parts, owned, heap
      ensures Valid() && value == V.Bundle([], []) && owned == {} && parts == {this}
      ensures heap.Valid() && heap.messages == old(heap.messages) - old(owned)
      ensures heap.live <= old(heap.live)
      decreases value, 1
    {
      Members();
      hide Heap.Valid, Message.Valid, Separate, Valid;
      DestroyMessages(heap);
      ghost var nested := DestroyBundles(heap);
      assert owned == nested + (set m | m in messages);
      Reset();
    }

    method Reset()
      modifies this
      ensures Valid() && value == V.Bundle([], []) && owned == {} && parts == {this}
    {
      messages, bundles := [], [];
      parts, owned := {this}, {};
      value := V.Bundle([], []);
    }

    /** What the destructor does: the members go, in the reverse order of their declaration. */
    method Destroy(ghost heap: Heap)
      requires Valid() && heap.Valid() && owned <= heap.messages
      modifies parts - {this}, owned, heap
      ensures heap.Valid() && heap.messages == old(heap.messages) - old(owned)
      ensures heap.live <= old(heap.live)
      decreases value, 1
    {
      Members();
      hide Heap.Valid, Message.Valid, Separate, Valid;
      ghost var nested := DestroyBundles(heap);
      assert owned == nested + (set m | m in messages);
      DestroyMessages(heap);
    }

    method DestroyBundles(ghost heap: Heap) returns (ghost gone: set<Message>)
      requires Subtrees() && heap.Valid()
      requires forall k :: 0 <= k < |bundles| ==> bundles[k].owned <= heap.messages
      modifies parts - {this}, owned - (set m | m in messages), heap
      ensures heap.Valid() && heap.messages == old(heap.messages) - gone && heap.live <= old(heap.live)
      ensures gone <= owned - (set m | m in messages)
      ensures forall k :: 0 <= k < |bundles| ==> old(bundles[k].owned) <= gone
      decreases value, 0
    {
      hide Heap.Valid, Message.Valid, Valid, Separate;
      gone := {};
      for i := 0 to |bundles|
        invariant gone <= owned - (set m | m in messages)
        invariant forall k :: 0 <= k < i ==> old(bundles[k].owned) <= gone
        invariant heap.Valid() && heap.messages == old(heap.messages) - gone && heap.live <= old(heap.live)
        invariant forall j :: i <= j < |bundles| ==>
          bundles[j].Valid() && unchanged(bundles[j]) && bundles[j].owned !! gone
      {
        assert bundles[i].owned <= heap.messages;
        gone := gone + bundles[i].owned;
        DestroyBundle(i, heap);
      }
    }

    /** One sub-bundle goes, the ones behind it stay as they are. */
    method DestroyBundle(i: nat, ghost heap: Heap)
      requires i < |bundles| && bundles[i].Valid() && this !in bundles[i].parts
      requires heap.Valid() && bundles[i].owned <= heap.messages
      requires forall j :: i < j < |bundles| ==>
        bundles[j].Valid() && bundles[i].parts !! bundles[j].parts && bundles[i].owned !! bundles[j].owned
      modifies bundles[i].parts, bundles[i].owned, heap
      ensures heap.Valid() && heap.messages == old(heap.messages) - old(bundles[i].owned)
      ensures heap.live <= old(heap.live)
      ensures forall j :: i < j < |bundles| ==> bundles[j].Valid() && unchanged(bundles[j])
      decreases bundles[i].value, 2
    {
      hide Heap.Valid, Message.Valid, Separate;
      bundles[i].Destroy(heap);
    }

    method DestroyMessages(ghost heap: Heap)
      requires heap.Valid() && forall i :: 0 <= i < |messages| ==> messages[i] in heap.messages
      requires forall i, j :: 0 <= i < j < |messages| ==> messages[i] != messages[j]
      modifies (set m | m in messages), heap
      ensures heap.Valid() && heap.messages == old(heap.messages) - (set m | m in messages)
      ensures heap.live <= old(heap.live)
    {
      for i := 0 to |messages|
        invariant heap.Valid() && heap.live <= old(heap.live)
        invariant heap.messages == old(heap.messages) - (set m | m in messages[..i])
      {
        messages[i].Destroy(heap);
      }
    }
  }
}
