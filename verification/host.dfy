/** Host (Ruby) values as the converters see them, and the shape of a
    per-type converter pair (From_Ruby / To_Ruby). */
module Host {
  import opened Wrappers

  /** The kinds of host value the converters dispatch on (rb_type). */
  datatype HostValue =
    | Nil                                          // T_NIL
    | Str(chars: string)                           // T_STRING
    | Int(n: int)                                  // T_FIXNUM / T_BIGNUM
    | Array(elements: seq<HostValue>)              // T_ARRAY, in index order
    | Hash(entries: seq<(HostValue, HostValue)>)   // T_HASH, in insertion order
    | Data(handle: nat)                            // T_DATA: a wrapped native object
    | Other(className: string)                     // any other kind

  /** A converter for one native type T:
      `accepts` is From_Ruby<T>::is_convertible, `fromHost` is
      From_Ruby<T>::convert (which may raise), `toHost` is To_Ruby<T>::convert. */
  datatype Converter<!T> = Converter(
    accepts: HostValue -> bool,
    fromHost: HostValue -> Result<T>,
    toHost: T -> HostValue)

  /** x survives a trip to the host and back, and the converter claims the
      host value it produces. */
  ghost predicate RoundTrips<T>(c: Converter<T>, x: T)
  {
    c.accepts(c.toHost(x)) && c.fromHost(c.toHost(x)) == Ok(x)
  }

  /** From_Ruby<std::string> / To_Ruby<std::string>: a string is copied in
      full in both directions; nil becomes the argument's default value when
      one is configured; any other non-string raises TypeError. */
  function StringConverter(default: Option<string>): (c: Converter<string>)
    ensures forall s :: RoundTrips(c, s)
    ensures forall v: HostValue :: c.accepts(v) <==> v.Str?
    ensures forall v: HostValue :: !v.Str? && !(v.Nil? && default.Some?) ==> c.fromHost(v) == Err(TypeError("String"))
    ensures default.Some? ==> c.fromHost(Nil) == Ok(default.value)
  {
    Converter(
      (v: HostValue) => v.Str?,
      (v: HostValue) => if v.Nil? && default.Some? then Ok(default.value)
           else if v.Str? then Ok(v.chars)
           else Err(TypeError("String")),
      s => Str(s))
  }
}
