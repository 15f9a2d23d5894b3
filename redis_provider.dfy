/** The Redis connection provider: the lookup of a service's connection
    string in the settings, and one shared connection per connection string,
    kept in two separate process-wide caches. */
module Redis {
  import opened Wrappers
  import Collections
  import DictionaryExtensions

  /** The Redis settings: each service's connection name, each name's
      connection string (either may be null), and the optional
      preserve-async-order switch. */
  datatype RedisSettings = RedisSettings(
    serviceConnections: map<string, Option<string>>,
    connectionStrings: map<string, Option<string>>,
    preserveAsyncOrder: Option<bool>)

  /** Null or empty. */
  predicate IsNullOrEmpty(s: Option<string>) {
    s.None? || s.value == []
  }

  /** Null, or made of white space only. */
  predicate IsNullOrWhiteSpace(s: Option<string>) {
    s.None? || forall i | 0 <= i < |s.value| :: DictionaryExtensions.IsWhiteSpace(s.value[i])
  }

  /** The connection string configured for `service`: the service must have
      a non-empty connection name, and that name a non-empty connection
      string; each failure is reported with its own message. */
  function GetConnectionString(settings: RedisSettings, service: string): (r: Result<string>)
    ensures r.Success? <==>
      && service in settings.serviceConnections
      && !IsNullOrEmpty(settings.serviceConnections[service])
      && settings.serviceConnections[service].value in settings.connectionStrings
      && !IsNullOrEmpty(settings.connectionStrings[settings.serviceConnections[service].value])
    ensures r.Success? ==> Some(r.value) == settings.connectionStrings[settings.serviceConnections[service].value] && r.value != []
    ensures (service !in settings.serviceConnections || IsNullOrEmpty(settings.serviceConnections[service])) ==>
      r == Failure(Raised("Connection name is null or empty for: " + service))
    ensures (&& service in settings.serviceConnections && !IsNullOrEmpty(settings.serviceConnections[service])
             && !r.Success?) ==>
      r == Failure(Raised("Connection string is null or empty for: " + service))
  {
    if service !in settings.serviceConnections || IsNullOrEmpty(settings.serviceConnections[service]) then
      Failure(Raised("Connection name is null or empty for: " + service))
    else
      var connName := settings.serviceConnections[service].value;
      if connName !in settings.connectionStrings || IsNullOrEmpty(settings.connectionStrings[connName]) then
        Failure(Raised("Connection string is null or empty for: " + service))
      else
        Success(settings.connectionStrings[connName].value)
  }

  /** A connection; `preserveAsyncOrder` is None while the library's own
      default is untouched. */
  class Multiplexer {
    const configuration: string
    var preserveAsyncOrder: Option<bool>

    constructor Connect(configuration: string)
      ensures this.configuration == configuration && preserveAsyncOrder == None
    {
      this.configuration := configuration;
      preserveAsyncOrder := None;
    }
  }

  class RedisConnectionProvider {
    const settings: RedisSettings
    /** The two caches are process-wide and shared by every provider. */
    const connections: Collections.LazyDictionary<string, Multiplexer?>
    const preserveOrderConnections: Collections.LazyDictionary<string, Multiplexer?>

    /** The caches are two different dictionaries and hold connections only. */
    ghost predicate Valid()
      reads this, connections, preserveOrderConnections
    {
      && connections != preserveOrderConnections
      && (forall k | k in connections.entries :: connections.entries[k] != null)
      && (forall k | k in preserveOrderConnections.entries :: preserveOrderConnections.entries[k] != null)
    }

    constructor (settings: RedisSettings,
                 connections: Collections.LazyDictionary<string, Multiplexer?>,
                 preserveOrderConnections: Collections.LazyDictionary<string, Multiplexer?>)
      requires connections != preserveOrderConnections
      requires forall k | k in connections.entries :: connections.entries[k] != null
      requires forall k | k in preserveOrderConnections.entries :: preserveOrderConnections.entries[k] != null
      ensures Valid()
      ensures this.settings == settings && this.connections == connections
      ensures this.preserveOrderConnections == preserveOrderConnections
    {
      this.settings := settings;
      this.connections := connections;
      this.preserveOrderConnections := preserveOrderConnections;
    }

    /** The cached connection for `connectionString`, connecting on the first
        request only; a new connection takes the preserve-async-order switch
        from the settings when it has a value. The other cache is untouched. */
    method GetConnection(connectionString: Option<string>) returns (r: Result<Multiplexer>)
      requires Valid()
      modifies connections
      ensures Valid()
      ensures unchanged(preserveOrderConnections)
      ensures IsNullOrWhiteSpace(connectionString) ==>
        r == Failure(ArgumentNull("connectionString")) && unchanged(connections)
      ensures !IsNullOrWhiteSpace(connectionString) ==>
        var key := connectionString.value;
        && r.Success?
        && key in connections.entries && connections.entries[key] == r.value
        && (key in old(connections.entries) ==>
              r.value == old(connections.entries[key]) && connections.entries == old(connections.entries))
        && (key !in old(connections.entries) ==>
              && fresh(r.value) && r.value.configuration == key
              && r.value.preserveAsyncOrder == settings.preserveAsyncOrder
              && connections.entries == old(connections.entries)[key := r.value])
    {
      if IsNullOrWhiteSpace(connectionString) {
        return Failure(ArgumentNull("connectionString"));
      }
      var key := connectionString.value;
      var (found, cached) := connections.TryGetValue(key);
      if found {
        return Success(cached);
      }
      var conn := new Multiplexer.Connect(key);
      if settings.preserveAsyncOrder.Some? {
        conn.preserveAsyncOrder := Some(settings.preserveAsyncOrder.value);
      }
      var _ := connections.TryAdd(key, conn);
      r := Success(conn);
    }

    /** The same as `GetConnection` over the second cache, except that a new
        connection always preserves async order. */
    method PreserveAsyncOrderGetConnection(connectionString: Option<string>) returns (r: Result<Multiplexer>)
      requires Valid()
      modifies preserveOrderConnections
      ensures Valid()
      ensures unchanged(connections)
      ensures IsNullOrWhiteSpace(connectionString) ==>
        r == Failure(ArgumentNull("connectionString")) && unchanged(preserveOrderConnections)
      ensures !IsNullOrWhiteSpace(connectionString) ==>
        var key := connectionString.value;
        && r.Success?
        && key in preserveOrderConnections.entries && preserveOrderConnections.entries[key] == r.value
        && (key in old(preserveOrderConnections.entries) ==>
              && r.value == old(preserveOrderConnections.entries[key])
              && preserveOrderConnections.entries == old(preserveOrderConnections.entries))
        && (key !in old(preserveOrderConnections.entries) ==>
              && fresh(r.value) && r.value.configuration == key
              && r.value.preserveAsyncOrder == Some(true)
              && preserveOrderConnections.entries == old(preserveOrderConnections.entries)[key := r.value])
    {
      if IsNullOrWhiteSpace(connectionString) {
        return Failure(ArgumentNull("connectionString"));
      }
      var key := connectionString.value;
      var (found, cached) := preserveOrderConnections.TryGetValue(key);
      if found {
        return Success(cached);
      }
      var conn := new Multiplexer.Connect(key);
      conn.preserveAsyncOrder := Some(true);
      var _ := preserveOrderConnections.TryAdd(key, conn);
      r := Success(conn);
    }
  }

  /** Asking twice for the same connection string gives the same connection,
      and the second request connects nothing new. */
  method GetConnectionTwice(provider: RedisConnectionProvider, connectionString: string)
      returns (first: Result<Multiplexer>, second: Result<Multiplexer>)
    requires provider.Valid()
    requires !IsNullOrWhiteSpace(Some(connectionString))
    modifies provider.connections
    ensures first.Success? && second.Success? && first.value == second.value
    ensures connectionString in provider.connections.entries
  {
    first := provider.GetConnection(Some(connectionString));
    var afterFirst := provider.connections.entries;
    second := provider.GetConnection(Some(connectionString));
    assert provider.connections.entries == afterFirst;
  }
}
