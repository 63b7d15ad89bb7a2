/**
 * The test helper `MQTT_GetUserPropertySize`: it checks a list of User
 * Properties and adds the size of each one's encoding (identifier byte,
 * key as a UTF-8 Encoded String, value as a UTF-8 Encoded String) to a
 * running total supplied by the caller.
 */
module UserProperties {
  import opened MqttTypes
  import opened Bytes
  import opened PropertyWriters

  /**
   * MQTTUserProperty_t: the key and value pointers, either of which may be
   * NULL, and their lengths.
   */
  datatype UserProperty = UserProperty(
    key: Option<seq<byte>>, keyLength: uint16,
    value: Option<seq<byte>>, valueLength: uint16)

  /** A property the helper accepts: both lengths non-zero and both pointers non-NULL. */
  predicate Valid(p: UserProperty)
  {
    p.keyLength != 0 && p.valueLength != 0 && p.key.Some? && p.value.Some?
  }

  /** The size the helper adds for one property: key length + 3, then value length + 2. */
  function PropertySize(p: UserProperty): nat
  {
    p.keyLength + 3 + p.valueLength + 2
  }

  /** The total the helper adds for `props`, summed front to back. */
  function PropertiesSize(props: seq<UserProperty>): (r: nat)
    ensures r >= 5 * |props|
  {
    if |props| == 0 then 0
    else PropertiesSize(props[..|props| - 1]) + PropertySize(props[|props| - 1])
  }

  /** The index of the first property the helper rejects, or `|props|` when it rejects none. */
  function FirstInvalid(props: seq<UserProperty>): (i: nat)
    ensures i <= |props|
    ensures forall j :: 0 <= j < i ==> Valid(props[j])
    ensures i < |props| ==> !Valid(props[i])
  {
    if |props| == 0 then 0
    else if !Valid(props[0]) then 0
    else 1 + FirstInvalid(props[1..])
  }

  /**
   * MQTT_GetUserPropertySize, with `*pSize` passed in as `size` and its
   * final value returned as `newSize`. MAX_USER_PROPERTY is the parameter
   * `maxUserProperty`. When the count is too large nothing is added; when a
   * property is rejected the sizes of the properties before it have
   * already been added.
   */
  method GetUserPropertySize(props: seq<UserProperty>, number: uint32, maxUserProperty: nat, size: nat)
    returns (status: Status, newSize: nat)
    requires number <= maxUserProperty ==> number <= |props|
    ensures status == Success || status == BadParameter
    ensures number > maxUserProperty ==> status == BadParameter && newSize == size
    ensures number <= maxUserProperty ==>
      var n := FirstInvalid(props[..number]);
      (status == Success <==> n == number) && newSize == size + PropertiesSize(props[..n])
  {
    status := Success;
    newSize := size;
    if number > maxUserProperty {
      status := BadParameter;
      return;
    }
    var i := 0;
    while i < number
      invariant 0 <= i <= number
      invariant status == Success
      invariant forall j :: 0 <= j < i ==> Valid(props[j])
      invariant newSize == size + PropertiesSize(props[..i])
    {
      var p := props[i];
      if p.keyLength == 0 || p.valueLength == 0 || p.key == None || p.value == None {
        status := BadParameter;
        break;
      }
      newSize := newSize + p.keyLength;
      newSize := newSize + 3;
      newSize := newSize + p.valueLength;
      newSize := newSize + 2;
      assert props[..i + 1][..i] == props[..i];
      i := i + 1;
    }
    assert props[..number][..i] == props[..i];
    FirstInvalidAt(props[..number], i);
  }

  /** The first rejected index is the only index before which every property is valid and at which one is not. */
  lemma FirstInvalidAt(props: seq<UserProperty>, i: nat)
    requires i <= |props|
    requires forall j :: 0 <= j < i ==> Valid(props[j])
    requires i < |props| ==> !Valid(props[i])
    ensures FirstInvalid(props) == i
  {
  }

  /** A valid property whose key and value hold at least `keyLength` and `valueLength` bytes. */
  predicate Readable(p: UserProperty)
  {
    Valid(p) && p.keyLength <= |p.key.value| && p.valueLength <= |p.value.value|
  }

  /** The wire bytes of the accepted properties, each as a User Property of its first `keyLength`/`valueLength` bytes. */
  function WireProperties(props: seq<UserProperty>): seq<byte>
    requires forall j :: 0 <= j < |props| ==> Readable(props[j])
  {
    if |props| == 0 then []
    else
      var p := props[|props| - 1];
      assert Readable(p);
      WireProperties(props[..|props| - 1])
        + UserPropertyPair(p.key.value[..p.keyLength], p.value.value[..p.valueLength])
  }

  /** The size the helper adds is the number of bytes the properties take on the wire. */
  lemma {:induction false} PropertiesSizeIsWireSize(props: seq<UserProperty>)
    requires forall j :: 0 <= j < |props| ==> Readable(props[j])
    ensures |WireProperties(props)| == PropertiesSize(props)
  {
    if |props| > 0 {
      PropertiesSizeIsWireSize(props[..|props| - 1]);
    }
  }

  /** Adding the sizes of `a` and then of `b` is adding the size of `a + b`. */
  lemma {:induction false} PropertiesSizeAppend(a: seq<UserProperty>, b: seq<UserProperty>)
    ensures PropertiesSize(a + b) == PropertiesSize(a) + PropertiesSize(b)
    decreases |b|
  {
    if |b| > 0 {
      assert (a + b)[..|a + b| - 1] == a + b[..|b| - 1];
      PropertiesSizeAppend(a, b[..|b| - 1]);
    } else {
      assert a + b == a;
    }
  }

  /** A list of copies of one property adds that property's size once per copy. */
  lemma {:induction false} UniformPropertiesSize(props: seq<UserProperty>, p: UserProperty)
    requires forall j :: 0 <= j < |props| ==> props[j] == p
    ensures PropertiesSize(props) == |props| * PropertySize(p)
  {
    if |props| > 0 {
      UniformPropertiesSize(props[..|props| - 1], p);
    }
  }
}
