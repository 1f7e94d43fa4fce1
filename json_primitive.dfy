// basic_json_string, basic_json_number and basic_json_bool: the leaf nodes
// of the JSON tree. Each holds one value that its assignment operator
// replaces; get_value and to_string turn it into text. The double of
// basic_json_number is the type parameter N, and the text the default
// stream formatting gives it is the function `format`, supplied by the
// caller: floating point is not modelled.
module JsonPrimitives {
  import opened Chars

  /** basic_json_string: the string, kept verbatim. */
  datatype JsonString = JsonString(value: string)
  {
    /** operator=(string): the new value replaces the stored one. */
    function Assign(v: string): (r: JsonString)
      ensures r.value == v
    {
      this.(value := v)
    }

    /** get_value: the stored string, with no quotes and no escaping. */
    function GetValue(): (s: string)
      ensures s == value
    {
      value
    }

    /** to_string: the same text as get_value. */
    function ToString(): (s: string)
      ensures s == GetValue()
    {
      value
    }
  }

  /** basic_json_number: a double, left abstract as N. */
  datatype JsonNumber<N> = JsonNumber(value: N)
  {
    /** operator=(double). */
    function Assign(v: N): (r: JsonNumber<N>)
      ensures r.value == v
    {
      this.(value := v)
    }

    /** to_string: `ss << value_`, the stream's default formatting of the double. */
    function ToString(format: N -> string): (s: string)
      ensures s == format(value)
    {
      format(value)
    }

    /** get_value: delegates to to_string. */
    function GetValue(format: N -> string): (s: string)
      ensures s == ToString(format)
    {
      ToString(format)
    }
  }

  /** basic_json_bool. */
  datatype JsonBool = JsonBool(value: bool)
  {
    /** operator=(bool). */
    function Assign(v: bool): (r: JsonBool)
      ensures r.value == v
    {
      this.(value := v)
    }

    /**
     * to_string: `ss << value_` without std::boolalpha prints the bool as
     * the integer 1 or 0, never as "true" or "false".
     */
    function ToString(): (s: string)
      ensures |s| == 1 && IsDigit(s[0])
      ensures s[0] == '1' <==> value
    {
      if value then "1" else "0"
    }

    /** get_value: delegates to to_string. */
    function GetValue(): (s: string)
      ensures s == ToString()
    {
      ToString()
    }
  }

  /** Two booleans print the same text only when they are equal: the digit is enough to recover the value. */
  lemma BoolTextInjective(a: JsonBool, b: JsonBool)
    ensures a.ToString() == b.ToString() <==> a.value == b.value
  {
    if a.ToString() == b.ToString() {
      assert a.ToString()[0] == b.ToString()[0];
    }
  }
}
