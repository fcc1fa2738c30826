/** The RESP frame value model and its error taxonomy: the tagged union of
    protocol values, their payload wrappers, constructors, conversions and
    accessors. */
module Resp {
  import opened Basics
  import SortedMap

  /** Rust `i64`. */
  newtype i64 = x: int | -0x8000_0000_0000_0000 <= x < 0x8000_0000_0000_0000

  /** Rust `isize`, taken at its width on a 64-bit target. */
  newtype isize = x: int | -0x8000_0000_0000_0000 <= x < 0x8000_0000_0000_0000

  /** Rust `f64`, kept only as its raw IEEE-754 bit pattern. */
  type F64 = bv64

  /** The seven failure kinds of the codec. `NotComplete` is the retry
      signal: more bytes are needed. The three kinds wrapping standard-library
      errors carry no payload here. */
  datatype RespError =
    | InvalidFrame(message: Text)
    | InvalidFrameType(message: Text)
    | InvalidFrameLength(length: isize)
    | NotComplete
    | ParseIntError
    | Utf8Error
    | ParseFloatError

  /** Rust `Result<T, RespError>`. */
  datatype Result<T> = Ok(value: T) | Err(error: RespError)

  /** One protocol value: a closed union of twelve variants. */
  datatype RespFrame =
    | SimpleString(simpleString: SimpleString)
    | Error(simpleError: SimpleError)
    | Integer(integer: i64)
    | BulkString(bulkString: BulkString)
    | NullBulkString(nullBulkString: RespNullBulkString)
    | Array(respArray: RespArray)
    | NullArray(nullArray: RespNullArray)
    | Null(respNull: RespNull)
    | Boolean(boolean: bool)
    | Double(double: F64)
    | Map(respMap: RespMap)
    | Set(respSet: RespSet)
  {
    /** `From<&[u8]> for RespFrame`: the bytes become a bulk string. */
    static function FromSlice(s: seq<byte>): (f: RespFrame)
      ensures f.BulkString? && f.bulkString.Deref() == s
    {
      RespFrame.BulkString(BulkString.New(s))
    }

    /** `From<&[u8; N]> for RespFrame`: the array is copied into a bulk string. */
    static function FromArray(a: seq<byte>, n: nat): (f: RespFrame)
      requires |a| == n
      ensures f.BulkString? && |f.bulkString.Deref()| == n && f.bulkString.AsRef() == a
    {
      RespFrame.BulkString(BulkString.FromArray(a, n))
    }
  }

  datatype SimpleString = SimpleString(text: Text)
  {
    /** `SimpleString::new`: wraps the text as given. */
    static function New(s: Text): SimpleString
    {
      SimpleString.SimpleString(s)
    }

    /** `Deref for SimpleString`. */
    function Deref(): Text
    {
      text
    }

    /** `AsRef<str> for SimpleString`. */
    function AsRef(): Text
    {
      text
    }
  }

  datatype SimpleError = SimpleError(text: Text)
  {
    /** `SimpleError::new`: wraps the text as given. */
    static function New(s: Text): SimpleError
    {
      SimpleError(s)
    }

    /** `Deref for SimpleError`. */
    function Deref(): Text
    {
      text
    }
  }

  datatype BulkString = BulkString(bytes: seq<byte>)
  {
    /** `BulkString::new`: wraps the bytes as given. */
    static function New(s: seq<byte>): BulkString
    {
      BulkString.BulkString(s)
    }

    /** `From<&[u8; N]> for BulkString`: copies the array. */
    static function FromArray(a: seq<byte>, n: nat): BulkString
      requires |a| == n
    {
      BulkString.BulkString(a)
    }

    /** `Deref for BulkString`. */
    function Deref(): seq<byte>
    {
      bytes
    }

    /** `AsRef<[u8]> for BulkString`. */
    function AsRef(): seq<byte>
    {
      bytes
    }
  }

  datatype RespNull = RespNull

  datatype RespNullArray = RespNullArray

  datatype RespNullBulkString = RespNullBulkString

  datatype RespArray = RespArray(items: seq<RespFrame>)
  {
    /** `RespArray::new`: keeps the elements as given. */
    static function New(s: seq<RespFrame>): RespArray
    {
      RespArray(s)
    }

    /** `Deref for RespArray`. */
    function Deref(): seq<RespFrame>
    {
      items
    }
  }

  datatype RespSet = RespSet(items: seq<RespFrame>)
  {
    /** `RespSet::new`: keeps the elements as given, duplicates included. */
    static function New(s: seq<RespFrame>): RespSet
    {
      RespSet(s)
    }

    /** `Deref for RespSet`. */
    function Deref(): seq<RespFrame>
    {
      items
    }
  }

  /** A `BTreeMap<String, RespFrame>`, as its entries in ascending key order. */
  datatype RespMap = RespMap(entries: SortedMap.Entries<RespFrame>)
  {
    /** What `BTreeMap` guarantees: keys unique and ascending. */
    predicate Valid()
    {
      SortedMap.StrictlySorted(entries)
    }

    /** The key-to-value mapping the map holds. */
    function Contents(): map<Text, RespFrame>
    {
      SortedMap.ToMap(entries)
    }

    /** `RespMap::new`: the empty map. */
    static function New(): (m: RespMap)
      ensures m.Valid() && m.Contents() == map[] && m.Len() == 0
    {
      RespMap([])
    }

    /** `Default for RespMap`: delegates to `new`. */
    static function Default(): (m: RespMap)
      ensures m == New()
    {
      New()
    }

    /** `Deref for RespMap`: the underlying map, as its ordered entries. */
    function Deref(): SortedMap.Entries<RespFrame>
    {
      entries
    }

    /** `len` of the underlying map: the number of its keys. */
    function Len(): (n: nat)
      ensures Valid() ==> n == |Contents()|
    {
      if Valid() then SortedMap.LenCountsKeys(entries); |entries| else |entries|
    }

    /** `keys` of the underlying map, in iteration order. */
    function Keys(): (ks: seq<Text>)
      requires Valid()
      ensures |ks| == Len()
      ensures forall i, j :: 0 <= i < j < |ks| ==> Less(ks[i], ks[j])
      ensures forall i :: 0 <= i < |ks| ==> ks[i] in Contents()
      ensures forall k :: k in Contents() ==> k in ks
    {
      SortedMap.Keys(entries)
    }

    /** `get` of the underlying map. */
    function Get(k: Text): (r: Option<RespFrame>)
      ensures r.Some? <==> k in Contents()
      ensures r.Some? ==> r.value == Contents()[k]
    {
      SortedMap.Get(entries, k)
    }

    /** `insert` through `DerefMut for RespMap`: overwrites the value of an
        existing key, otherwise adds the key in order. */
    function Insert(k: Text, v: RespFrame): (m: RespMap)
      requires Valid()
      ensures m.Valid()
      ensures m.Contents() == Contents()[k := v]
      ensures m.Get(k) == Some(v)
      ensures forall k' :: k' != k ==> m.Get(k') == Get(k')
      ensures m.Len() == if k in Contents() then Len() else Len() + 1
    {
      SortedMap.InsertSorted(entries, k, v);
      SortedMap.InsertUpdates(entries, k, v);
      SortedMap.InsertCount(entries, k, v);
      RespMap(SortedMap.Insert(entries, k, v))
    }
  }

  lemma UpdatesCommute(c: map<Text, RespFrame>, k1: Text, v1: RespFrame, k2: Text, v2: RespFrame)
    requires k1 != k2
    ensures c[k1 := v1][k2 := v2] == c[k2 := v2][k1 := v1]
  {
  }

  /** Key order is the container's, not the caller's: inserting two
      different keys in either order builds the same map. */
  lemma InsertOrderIrrelevant(m: RespMap, k1: Text, v1: RespFrame, k2: Text, v2: RespFrame)
    requires m.Valid() && k1 != k2
    ensures m.Insert(k1, v1).Insert(k2, v2) == m.Insert(k2, v2).Insert(k1, v1)
  {
    var c := m.Contents();
    var m1 := m.Insert(k1, v1);
    var m2 := m.Insert(k2, v2);
    var a := m1.Insert(k2, v2);
    var b := m2.Insert(k1, v1);
    assert a.Contents() == c[k1 := v1][k2 := v2];
    assert b.Contents() == c[k2 := v2][k1 := v1];
    UpdatesCommute(c, k1, v1, k2, v2);
    SortedMap.Canonical(a.entries, b.entries);
  }

  /** Constructors store the payload unchanged and the accessors give it back;
      no construction can fail. */
  lemma TextWrappersRoundTrip(s: Text, x: SimpleString, e: SimpleError)
    ensures SimpleString.New(s).Deref() == s && SimpleString.New(s).AsRef() == s
    ensures SimpleString.New(x.Deref()) == x
    ensures SimpleError.New(s).Deref() == s
    ensures SimpleError.New(e.Deref()) == e
  {
  }

  lemma BulkStringRoundTrip(s: seq<byte>, b: BulkString)
    ensures BulkString.New(s).Deref() == s && BulkString.New(s).AsRef() == s
    ensures BulkString.FromArray(s, |s|) == BulkString.New(s)
    ensures BulkString.New(b.Deref()) == b
  {
  }

  /** Arrays and sets keep the element sequence exactly: same order, same
      length, duplicates kept. */
  lemma AggregatesKeepElements(s: seq<RespFrame>, a: RespArray, t: RespSet)
    ensures RespArray.New(s).Deref() == s && RespSet.New(s).Deref() == s
    ensures |RespSet.New(s).Deref()| == |s|
    ensures RespArray.New(a.Deref()) == a && RespSet.New(t.Deref()) == t
  {
  }
}
