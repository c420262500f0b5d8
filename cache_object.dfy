/**
 * The expirable value of the cache (cache_object.go): a payload together with an
 * absolute expiry instant. Instants are integers counting nanoseconds, the unit of
 * Go's `time.Duration`; Go's zero `time.Time` (`UninitedTime`) is the distinct
 * value `Uninited`.
 */
module CacheObjects {
  import opened Common

  /** `time.Second`, in nanoseconds. */
  const NanosPerSecond: int := 1_000_000_000

  /** An expiry: unset (Go's zero time) or an instant. */
  datatype Expiry = Uninited | At(instant: int)

  /**
   * Go's `CacheObject`. It is a struct that the cache maps hold by value, so it is
   * a datatype here; the pointer-receiver updates return the updated value.
   */
  datatype CacheObject<T> = CacheObject(expireTime: Expiry, obj: T)
  {
    /** Reference definition of liveness: the expiry is set and strictly after `now`. */
    predicate IsAlive(now: int)
    {
      expireTime.At? && now < expireTime.instant
    }

    /** `Get`: the stored payload, with no look at the clock. */
    function Get(): T
    {
      obj
    }

    /** `GetObject(now)`: the payload while alive, `(nil, false)` otherwise. */
    function GetObject(now: int): (r: Option<T>)
      ensures r.Some? <==> IsAlive(now)
      ensures r.Some? ==> r.value == obj
    {
      if expireTime == Uninited then None
      else if expireTime.instant > now then Some(obj)
      else None
    }

    /** `UpdateObject`: replaces the payload only, and reports true. */
    function UpdateObject(newObj: T): (r: (CacheObject<T>, bool))
      ensures r.1
      ensures r.0.obj == newObj && r.0.expireTime == expireTime
      ensures forall now :: r.0.IsAlive(now) == IsAlive(now)
    {
      (this.(obj := newObj), true)
    }

    /** `UpdateObjectWithExpireTime`: replaces payload and expiry, and reports true. */
    function UpdateObjectWithExpireTime(newObj: T, expireTime: Expiry): (r: (CacheObject<T>, bool))
      ensures r.1
      ensures r.0.obj == newObj && r.0.expireTime == expireTime
    {
      (this.(obj := newObj, expireTime := expireTime), true)
    }

    /** `UpdateObjectWithExpireTimeDur`: payload and an expiry `expireDur` seconds after `now`. */
    function UpdateObjectWithExpireTimeDur(newObj: T, now: int, expireDur: int): (r: (CacheObject<T>, bool))
      ensures r.1
      ensures r.0 == NewCacheObject(newObj, now, expireDur)
    {
      (this.(obj := newObj, expireTime := At(now + expireDur * NanosPerSecond)), true)
    }
  }

  /**
   * `NewCacheObject(obj, now, expireSeconds)`: the payload unchanged, alive exactly
   * at the instants before `now + expireSeconds` seconds.
   */
  function NewCacheObject<T>(obj: T, now: int, expireSeconds: int): (c: CacheObject<T>)
    ensures c.obj == obj && c.expireTime != Uninited
    ensures forall t :: c.IsAlive(t) <==> t < now + expireSeconds * NanosPerSecond
    ensures c.GetObject(now).Some? <==> expireSeconds > 0
  {
    CacheObject(At(now + expireSeconds * NanosPerSecond), obj)
  }

  /** An object whose expiry is unset is never reported alive, whatever the time. */
  lemma UninitedNeverAlive<T>(c: CacheObject<T>, now: int)
    requires c.expireTime == Uninited
    ensures c.GetObject(now) == None
  {
  }

  /** The liveness boundary is exclusive: dead at the expiry instant, alive just before. */
  lemma ExpiryBoundary<T>(c: CacheObject<T>)
    requires c.expireTime.At?
    ensures c.GetObject(c.expireTime.instant) == None
    ensures c.GetObject(c.expireTime.instant - 1) == Some(c.obj)
  {
  }

  /** `Get` returns the payload whether or not it has expired, and agrees with `GetObject` when alive. */
  lemma GetIgnoresExpiry<T>(c: CacheObject<T>, now: int)
    ensures c.Get() == c.obj
    ensures c.GetObject(now).Some? ==> c.GetObject(now).value == c.Get()
  {
  }
}
