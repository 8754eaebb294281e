/** `ServiceContainer`: a registry of services keyed by their type. A type is identified by
    its full name, as `typeof(T)` prints it; `S` stands for the stored instances. */
module Container {
  import opened Common

  type TypeName = string

  /** The message of the exception for a type nobody registered. */
  function NotRegisteredMessage(t: TypeName): string {
    "Service of type " + t + " is not registered"
  }

  /** What `Get<T>` produces on a registry `services`. */
  function Lookup<S>(services: map<TypeName, S>, t: TypeName): (r: Outcome<S>)
    ensures r.Done? <==> t in services
    ensures r.Done? ==> r.value == services[t]
    ensures r.Threw? ==> r.error == InvalidOperation(NotRegisteredMessage(t))
  {
    if t in services then Done(services[t]) else Threw(InvalidOperation(NotRegisteredMessage(t)))
  }

  /** After registering `s` for `t`, looking `t` up yields `s`, whatever was registered
      before; every other type looks up as before. */
  lemma RegisterThenLookup<S>(services: map<TypeName, S>, t: TypeName, s: S, u: TypeName)
    ensures Lookup(services[t := s], t) == Done(s)
    ensures u != t ==> Lookup(services[t := s], u) == Lookup(services, u)
  {
  }

  /** Registering twice for one type keeps only the second instance. */
  lemma RegisterReplaces<S>(services: map<TypeName, S>, t: TypeName, s1: S, s2: S)
    ensures services[t := s1][t := s2] == services[t := s2]
  {
  }

  class ServiceContainer<S> {
    var services: map<TypeName, S>

    constructor()
      ensures services == map[]
    {
      services := map[];
    }

    /** `Register<T>`: sets the entry of `t`, replacing any earlier one. */
    method Register(t: TypeName, service: S)
      modifies this
      ensures services == old(services)[t := service]
    {
      services := services[t := service];
    }

    /** `Get<T>`: the registered instance, or an `InvalidOperationException` naming the type. */
    method Get(t: TypeName) returns (r: Outcome<S>)
      ensures r == Lookup(services, t)
    {
      if t in services {
        r := Done(services[t]);
      } else {
        r := Threw(InvalidOperation(NotRegisteredMessage(t)));
      }
    }
  }
}
