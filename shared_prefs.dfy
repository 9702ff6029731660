/**
 * Typed preference delegates over an Android SharedPreferences file. The file
 * is an in-memory map from keys to typed values; each delegate keeps a
 * `cacheValue` and writes to the file only when a new value differs from it.
 */
module SharedPrefs {
  import opened Wrappers

  newtype int32 = x: int | -0x8000_0000 <= x < 0x8000_0000
  newtype int64 = x: int | -0x8000_0000_0000_0000 <= x < 0x8000_0000_0000_0000

  /** A stored preference value; a Float is kept as its 32 bits. */
  datatype Value =
    | BoolV(b: bool)
    | FloatV(bits: bv32)
    | IntV(i: int32)
    | LongV(l: int64)
    | StrV(s: string)
    | StrSetV(strs: set<string>)

  datatype Kind = BoolKind | FloatKind | IntKind | LongKind | StrKind | StrSetKind

  function KindOf(v: Value): Kind {
    match v
    case BoolV(_) => BoolKind
    case FloatV(_) => FloatKind
    case IntV(_) => IntKind
    case LongV(_) => LongKind
    case StrV(_) => StrKind
    case StrSetV(_) => StrSetKind
  }

  /** The kinds Pref handles; any other kind reaches its `error(...)` branch. */
  predicate IsScalar(v: Value) {
    !v.StrSetV?
  }

  /** The result of a read that may throw (ClassCastException or IllegalStateException). */
  datatype Outcome<T> = Ok(value: T) | Throws

  /** What a typed getter finds under a key. */
  datatype Fetched = Stored(v: Value) | NotStored | WrongKind

  /**
   * SharedPreferences.getBoolean/getFloat/getInt/getLong/getString/getStringSet:
   * the stored value when it has the getter's kind, nothing when the key is
   * absent, and a ClassCastException when it holds another kind.
   */
  function Fetch(entries: map<string, Value>, key: string, kind: Kind): (r: Fetched)
    ensures r.NotStored? <==> key !in entries
    ensures r.Stored? ==> key in entries && r.v == entries[key] && KindOf(r.v) == kind
    ensures r.WrongKind? ==> key in entries && KindOf(entries[key]) != kind
  {
    if key !in entries then NotStored
    else if KindOf(entries[key]) == kind then Stored(entries[key])
    else WrongKind
  }

  /** The preferences file; an edit followed by apply() takes effect at once. */
  class Preferences {
    var entries: map<string, Value>

    constructor (entries: map<string, Value>)
      ensures this.entries == entries
    {
      this.entries := entries;
    }

    /** editor.putX(key, value).apply(); a null value removes the key. */
    method Put(key: string, value: Option<Value>)
      modifies this
      ensures entries == if value.Some? then old(entries)[key := value.value] else old(entries) - {key}
    {
      if value.Some? {
        entries := entries[key := value.value];
      } else {
        entries := entries - {key};
      }
    }
  }

  // ----- Pref -----

  /**
   * Pref.getValueInternal: the stored value if there is one, else the default;
   * it throws when the default is not one of the five supported kinds or the
   * key holds a value of another kind.
   */
  function PrefRead(entries: map<string, Value>, key: string, defValue: Value): (r: Outcome<Value>)
    ensures r.Throws? <==> !IsScalar(defValue) || (key in entries && KindOf(entries[key]) != KindOf(defValue))
    ensures r.Ok? ==> KindOf(r.value) == KindOf(defValue)
    ensures r.Ok? && key in entries ==> r.value == entries[key]
    ensures r.Ok? && key !in entries ==> r.value == defValue
  {
    if !IsScalar(defValue) then Throws
    else
      match Fetch(entries, key, KindOf(defValue))
      case Stored(v) => Ok(v)
      case NotStored => Ok(defValue)
      case WrongKind => Throws
  }

  /** A value written under one key leaves what every other key reads alone. */
  lemma PrefReadOtherKey(entries: map<string, Value>, key: string, other: string, v: Option<Value>, defValue: Value)
    requires other != key
    ensures PrefRead(if v.Some? then entries[other := v.value] else entries - {other}, key, defValue)
         == PrefRead(entries, key, defValue)
  {
    var after := if v.Some? then entries[other := v.value] else entries - {other};
    assert (key in after) == (key in entries);
    assert key in after ==> after[key] == entries[key];
  }

  /** A delegate for a Boolean, Float, Int, Long or String preference. */
  class Pref {
    const prefs: Preferences
    const defValue: Value
    const key: string
    var cacheValue: Value

    ghost predicate Valid()
      reads this
    {
      IsScalar(defValue) && KindOf(cacheValue) == KindOf(defValue)
    }

    /** The cache is read from the file, or the default, once, here. */
    constructor (prefs: Preferences, defValue: Value, key: string)
      requires PrefRead(prefs.entries, key, defValue).Ok?
      ensures Valid() && this.prefs == prefs && this.defValue == defValue && this.key == key
      ensures cacheValue == PrefRead(prefs.entries, key, defValue).value
    {
      this.prefs := prefs;
      this.defValue := defValue;
      this.key := key;
      cacheValue := PrefRead(prefs.entries, key, defValue).value;
    }

    /** getValue reads the file, not the cache. */
    function GetValue(): (r: Outcome<Value>)
      reads this, prefs
      ensures r.Throws? <==> !IsScalar(defValue) || (key in prefs.entries && KindOf(prefs.entries[key]) != KindOf(defValue))
      ensures r.Ok? ==> r.value == if key in prefs.entries then prefs.entries[key] else defValue
    {
      PrefRead(prefs.entries, key, defValue)
    }

    /**
     * setValue: when `value` differs from the cache, the cache and the file take
     * it; otherwise nothing changes, even if the file no longer holds the cached
     * value.
     */
    method SetValue(value: Value)
      requires Valid() && KindOf(value) == KindOf(defValue)
      modifies this, prefs
      ensures Valid()
      ensures old(cacheValue) != value ==> cacheValue == value && prefs.entries == old(prefs.entries)[key := value]
      ensures old(cacheValue) != value ==> GetValue() == Ok(value)
      ensures old(cacheValue) == value ==> cacheValue == old(cacheValue) && prefs.entries == old(prefs.entries)
    {
      if cacheValue != value {
        cacheValue := value;
        prefs.Put(key, Some(value));
      }
    }
  }

  // ----- StringSetPref -----

  /** StringSetPref's read: getStringSet(key, defValue). */
  function StringSetRead(entries: map<string, Value>, key: string, defValue: Option<set<string>>): (r: Outcome<Option<set<string>>>)
    ensures r.Throws? <==> key in entries && !entries[key].StrSetV?
    ensures r.Ok? && key in entries ==> r.value == Some(entries[key].strs)
    ensures r.Ok? && key !in entries ==> r.value == defValue
  {
    match Fetch(entries, key, StrSetKind)
    case Stored(v) => Ok(Some(v.strs))
    case NotStored => Ok(defValue)
    case WrongKind => Throws
  }

  /** A delegate for a nullable set of strings. */
  class StringSetPref {
    const prefs: Preferences
    const defValue: Option<set<string>>
    const key: string
    var cacheValue: Option<set<string>>

    constructor (prefs: Preferences, defValue: Option<set<string>>, key: string)
      requires StringSetRead(prefs.entries, key, defValue).Ok?
      ensures this.prefs == prefs && this.defValue == defValue && this.key == key
      ensures cacheValue == StringSetRead(prefs.entries, key, defValue).value
    {
      this.prefs := prefs;
      this.defValue := defValue;
      this.key := key;
      cacheValue := StringSetRead(prefs.entries, key, defValue).value;
    }

    /** getValue reads the file, not the cache; an absent key gives the default. */
    function GetValue(): (r: Outcome<Option<set<string>>>)
      reads this, prefs
      ensures r.Throws? <==> key in prefs.entries && !prefs.entries[key].StrSetV?
      ensures r.Ok? ==> r.value == if key in prefs.entries then Some(prefs.entries[key].strs) else defValue
    {
      StringSetRead(prefs.entries, key, defValue)
    }

    /**
     * setValue: writes only when `value` differs from the cache; writing null
     * removes the key, so the next read gives the default again.
     */
    method SetValue(value: Option<set<string>>)
      modifies this, prefs
      ensures old(cacheValue) != value ==> cacheValue == value
      ensures old(cacheValue) != value && value.Some? ==> prefs.entries == old(prefs.entries)[key := StrSetV(value.value)]
      ensures old(cacheValue) != value && value.None? ==> prefs.entries == old(prefs.entries) - {key}
      ensures old(cacheValue) != value ==> GetValue() == Ok(if value.Some? then value else defValue)
      ensures old(cacheValue) == value ==> cacheValue == old(cacheValue) && prefs.entries == old(prefs.entries)
    {
      if cacheValue != value {
        cacheValue := value;
        prefs.Put(key, if value.Some? then Some(StrSetV(value.value)) else None);
      }
    }
  }

  // ----- LocalTimePref -----

  datatype Time = Time(hour: nat, minute: nat, second: nat, nano: nat)

  /** org.threeten.bp.LocalTime: a time of day to the nanosecond. */
  type LocalTime = t: Time | t.hour < 24 && t.minute < 60 && t.second < 60 && t.nano < 1_000_000_000
    witness Time(0, 0, 0, 0)

  /** The ISO_LOCAL_TIME formatter: LocalTime.format and LocalTime.parse (None where it throws). */
  datatype TimeCodec = TimeCodec(format: LocalTime -> string, parse: string -> Option<LocalTime>)

  /** Parsing what was formatted gives back the same time. */
  ghost predicate Faithful(codec: TimeCodec) {
    forall t: LocalTime :: codec.parse(codec.format(t)) == Some(t)
  }

  /**
   * DateTimeUtil.toLocalTime: the parsed time, or `fallback` when there is no
   * string or it does not parse.
   */
  function ToLocalTime(codec: TimeCodec, time: Option<string>, fallback: Option<LocalTime>): (r: Option<LocalTime>)
    ensures time.Some? && codec.parse(time.value).Some? ==> r == codec.parse(time.value)
    ensures time.None? || codec.parse(time.value).None? ==> r == fallback
  {
    if time.Some? && codec.parse(time.value).Some? then codec.parse(time.value) else fallback
  }

  /**
   * LocalTimePref.getValueInternal(fallback): the stored string, or the
   * formatted fallback when none is stored; no string at all gives null,
   * otherwise it is parsed with `fallback` as the fallback.
   */
  function LocalTimeRead(entries: map<string, Value>, key: string, codec: TimeCodec, fallback: Option<LocalTime>): (r: Outcome<Option<LocalTime>>)
    ensures r.Throws? <==> key in entries && !entries[key].StrV?
    ensures key in entries && entries[key].StrV? ==> r == Ok(ToLocalTime(codec, Some(entries[key].s), fallback))
    ensures key !in entries && fallback.None? ==> r == Ok(None)
    ensures key !in entries && fallback.Some? ==> r == Ok(ToLocalTime(codec, Some(codec.format(fallback.value)), fallback))
  {
    match Fetch(entries, key, StrKind)
    case WrongKind => Throws
    case Stored(v) => Ok(ToLocalTime(codec, Some(v.s), fallback))
    case NotStored =>
      if fallback.None? then Ok(None)
      else Ok(ToLocalTime(codec, Some(codec.format(fallback.value)), fallback))
  }

  /** A stored string that does not parse reads as the fallback. */
  lemma MalformedTimeFallsBack(entries: map<string, Value>, key: string, codec: TimeCodec, fallback: Option<LocalTime>)
    requires key in entries && entries[key].StrV? && codec.parse(entries[key].s).None?
    ensures LocalTimeRead(entries, key, codec, fallback) == Ok(fallback)
  {
  }

  /** A stored, formatted time reads back as that time. */
  lemma FormattedTimeReadsBack(entries: map<string, Value>, key: string, codec: TimeCodec, t: LocalTime, fallback: Option<LocalTime>)
    requires Faithful(codec)
    ensures LocalTimeRead(entries[key := StrV(codec.format(t))], key, codec, fallback) == Ok(Some(t))
  {
    assert codec.parse(codec.format(t)) == Some(t);
  }

  /** With nothing stored, the read gives the fallback itself, null included. */
  lemma AbsentTimeReadsFallback(entries: map<string, Value>, key: string, codec: TimeCodec, fallback: Option<LocalTime>)
    requires Faithful(codec) && key !in entries
    ensures LocalTimeRead(entries, key, codec, fallback) == Ok(fallback)
  {
    if fallback.Some? {
      assert codec.parse(codec.format(fallback.value)) == Some(fallback.value);
    }
  }

  /**
   * AbsentTimeReadsFallback with the codec's faithfulness as a hypothesis of
   * the conclusion, so that the compiled GetValue, which cannot branch on the
   * ghost Faithful, can call it unconditionally.
   */
  lemma AbsentTimeReadsCache(entries: map<string, Value>, key: string, codec: TimeCodec, fallback: Option<LocalTime>)
    ensures key !in entries && Faithful(codec) ==> LocalTimeRead(entries, key, codec, fallback) == Ok(fallback)
  {
    if key !in entries && Faithful(codec) {
      AbsentTimeReadsFallback(entries, key, codec, fallback);
    }
  }

  /** A delegate for a nullable LocalTime, stored as its ISO_LOCAL_TIME string. */
  class LocalTimePref {
    const prefs: Preferences
    const codec: TimeCodec
    const defValue: Option<LocalTime>
    const key: string
    var cacheValue: Option<LocalTime>

    /** The cache is the read with the default as fallback. */
    constructor (prefs: Preferences, codec: TimeCodec, defValue: Option<LocalTime>, key: string)
      requires LocalTimeRead(prefs.entries, key, codec, defValue).Ok?
      ensures this.prefs == prefs && this.codec == codec && this.defValue == defValue && this.key == key
      ensures cacheValue == LocalTimeRead(prefs.entries, key, codec, defValue).value
    {
      this.prefs := prefs;
      this.codec := codec;
      this.defValue := defValue;
      this.key := key;
      cacheValue := LocalTimeRead(prefs.entries, key, codec, defValue).value;
    }

    /**
     * getValue reads the file with the cache as fallback: a stored string that
     * parses gives its time, one that does not gives the cache, and an absent
     * key gives the cache itself.
     */
    function GetValue(): (r: Outcome<Option<LocalTime>>)
      reads this, prefs
      ensures r.Throws? <==> key in prefs.entries && !prefs.entries[key].StrV?
      ensures key in prefs.entries && prefs.entries[key].StrV? && codec.parse(prefs.entries[key].s).Some? ==>
                r == Ok(codec.parse(prefs.entries[key].s))
      ensures key in prefs.entries && prefs.entries[key].StrV? && codec.parse(prefs.entries[key].s).None? ==>
                r == Ok(cacheValue)
      ensures key !in prefs.entries && Faithful(codec) ==> r == Ok(cacheValue)
    {
      AbsentTimeReadsCache(prefs.entries, key, codec, cacheValue);
      LocalTimeRead(prefs.entries, key, codec, cacheValue)
    }

    /**
     * setValue: when `value` differs from the cache, the cache takes it and the
     * file gets its formatted string, or loses the key for null; a following
     * read gives `value` back.
     */
    method SetValue(value: Option<LocalTime>)
      modifies this, prefs
      ensures old(cacheValue) != value ==> cacheValue == value
      ensures old(cacheValue) != value && value.Some? ==> prefs.entries == old(prefs.entries)[key := StrV(codec.format(value.value))]
      ensures old(cacheValue) != value && value.None? ==> prefs.entries == old(prefs.entries) - {key}
      ensures old(cacheValue) != value && Faithful(codec) ==> GetValue() == Ok(value)
      ensures old(cacheValue) == value ==> cacheValue == old(cacheValue) && prefs.entries == old(prefs.entries)
    {
      if cacheValue != value {
        cacheValue := value;
        prefs.Put(key, if value.Some? then Some(StrV(codec.format(value.value))) else None);
        if Faithful(codec) {
          if value.Some? {
            FormattedTimeReadsBack(old(prefs.entries), key, codec, value.value, value);
          } else {
            AbsentTimeReadsFallback(prefs.entries, key, codec, value);
          }
        }
      }
    }
  }
}
