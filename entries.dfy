/** KeyValue and KVal: two identical mutable `Map.Entry` records. Their
    `setValue` answers the NEW value, not the previous one that
    `Map.Entry.setValue` documents. */
module Entries {

  class KeyValue<K, V> {
    var key: K
    var value: V

    /** `KeyValue(key, value)`. */
    constructor (key: K, value: V)
      ensures this.key == key && this.value == value
    {
      this.value := value;
      this.key := key;
    }

    /** `getKey()`. */
    function GetKey(): K
      reads this
    {
      key
    }

    /** `getValue()`. */
    function GetValue(): V
      reads this
    {
      value
    }

    /** `setValue(v)`: `return this.value = v`, the assignment's value. */
    method SetValue(v: V) returns (r: V)
      modifies this
      ensures r == v && GetValue() == v && GetKey() == old(GetKey())
    {
      value := v;
      r := value;
    }
  }

  class KVal<K, V> {
    var key: K
    var value: V

    /** `KVal(key, value)`. */
    constructor (key: K, value: V)
      ensures this.key == key && this.value == value
    {
      this.value := value;
      this.key := key;
    }

    /** `getKey()`. */
    function GetKey(): K
      reads this
    {
      key
    }

    /** `getValue()`. */
    function GetValue(): V
      reads this
    {
      value
    }

    /** `setValue(v)`: `return this.value = v`, the assignment's value. */
    method SetValue(v: V) returns (r: V)
      modifies this
      ensures r == v && GetValue() == v && GetKey() == old(GetKey())
    {
      value := v;
      r := value;
    }
  }
}
