/** Port definitions and their validation (internal/config/ports.go). */
module Ports {
  import opened Wrappers

  datatype PortDefinition = PortDefinition(port: int, name: string, description: string, category: string,
                                           alias: string)

  datatype Validation = Valid | Duplicate(def: PortDefinition) | OutOfRange(def: PortDefinition)

  ghost predicate DistinctPorts(defs: seq<PortDefinition>) {
    forall i, j :: 0 <= i < j < |defs| ==> defs[i].port != defs[j].port
  }

  ghost predicate InRange(defs: seq<PortDefinition>) {
    forall i :: 0 <= i < |defs| ==> 1 <= defs[i].port <= 65535
  }

  /** ValidatePorts on the critical definitions; duplicates are looked for first. */
  method ValidatePorts(defs: seq<PortDefinition>) returns (r: Validation)
    ensures r.Valid? <==> DistinctPorts(defs) && InRange(defs)
    ensures r.Duplicate? ==> exists i, j :: 0 <= i < j < |defs| && defs[i].port == defs[j].port && r.def == defs[j]
                                            && DistinctPorts(defs[..j])
    ensures r.OutOfRange? ==> DistinctPorts(defs) && exists i :: 0 <= i < |defs| && r.def == defs[i]
                                                                && !(1 <= r.def.port <= 65535) && InRange(defs[..i])
  {
    var seen: map<int, bool> := map[];
    for i := 0 to |defs|
      invariant forall p :: p in seen <==> exists j :: 0 <= j < i && defs[j].port == p
      invariant forall p :: p in seen ==> seen[p]
      invariant DistinctPorts(defs[..i])
    {
      var def := defs[i];
      if def.port in seen && seen[def.port] {
        return Duplicate(def);
      }
      seen := seen[def.port := true];
      assert defs[..i + 1] == defs[..i] + [def];
    }
    assert defs[..|defs|] == defs;
    for i := 0 to |defs|
      invariant InRange(defs[..i])
    {
      var def := defs[i];
      if def.port < 1 || def.port > 65535 {
        return OutOfRange(def);
      }
    }
    return Valid;
  }

  function PortsOf(defs: seq<PortDefinition>): (ports: seq<int>) {
    seq(|defs|, i requires 0 <= i < |defs| => defs[i].port)
  }

  /** GetCriticalPorts and GetFakePorts: a slice filled by index. */
  method GetPorts(defs: seq<PortDefinition>) returns (ports: seq<int>)
    ensures ports == PortsOf(defs)
  {
    var slice := new int[|defs|];
    for i := 0 to |defs|
      invariant forall j :: 0 <= j < i ==> slice[j] == defs[j].port
    {
      slice[i] := defs[i].port;
    }
    ports := slice[..];
  }

  /** FindPortDefinition: the first critical definition of the port, else the first fake one. */
  method FindPortDefinition(critical: seq<PortDefinition>, fake: seq<PortDefinition>, port: int)
    returns (r: Option<PortDefinition>)
    ensures r.None? <==> port !in PortsOf(critical) && port !in PortsOf(fake)
    ensures r.Some? ==> r.value.port == port
    ensures port in PortsOf(critical) ==>
              exists i :: 0 <= i < |critical| && r == Some(critical[i]) && port !in PortsOf(critical)[..i]
    ensures port !in PortsOf(critical) && port in PortsOf(fake) ==>
              exists i :: 0 <= i < |fake| && r == Some(fake[i]) && port !in PortsOf(fake)[..i]
  {
    for i := 0 to |critical|
      invariant port !in PortsOf(critical)[..i]
    {
      if critical[i].port == port {
        assert PortsOf(critical)[i] == port;
        return Some(critical[i]);
      }
      assert PortsOf(critical)[..i + 1] == PortsOf(critical)[..i] + [critical[i].port];
    }
    assert PortsOf(critical)[..|critical|] == PortsOf(critical);
    for i := 0 to |fake|
      invariant port !in PortsOf(fake)[..i]
    {
      if fake[i].port == port {
        assert PortsOf(fake)[i] == port;
        return Some(fake[i]);
      }
      assert PortsOf(fake)[..i + 1] == PortsOf(fake)[..i] + [fake[i].port];
    }
    assert PortsOf(fake)[..|fake|] == PortsOf(fake);
    return None;
  }

  // ---------------------------------------------------------------- the shipped lists

  const CRITICAL_PORT_DEFINITIONS: seq<PortDefinition> := [
    PortDefinition(21, "FTP", "File Transfer Protocol", "file", "FTP_PORT"),
    PortDefinition(22, "SSH", "Secure Shell", "core", "SSH_PORT")
  ]

  const FAKE_PORT_DEFINITIONS: seq<PortDefinition> := [
    PortDefinition(80, "HTTP", "HTTP Web Server", "application", "HTTP_PORT"),
    PortDefinition(443, "HTTPS", "HTTPS Web Server", "application", "HTTPS_PORT"),
    PortDefinition(3306, "MySQL Fake", "MySQL (fake honeypot)", "database", "MYSQL_FAKE_PORT"),
    PortDefinition(5432, "PostgreSQL Fake", "PostgreSQL (fake honeypot)", "database", "POSTGRES_FAKE_PORT"),
    PortDefinition(6379, "Redis Fake", "Redis (fake honeypot)", "database", "REDIS_FAKE_PORT"),
    PortDefinition(27017, "MongoDB Fake", "MongoDB (fake honeypot)", "database", "MONGODB_FAKE_PORT"),
    PortDefinition(8080, "Admin Panel Fake", "Admin Panel (fake)", "admin", "ADMIN_PANEL_FAKE_PORT"),
    PortDefinition(8443, "HTTPS Alt Fake", "HTTPS Alternative (fake)", "admin", "HTTPS_ALT_FAKE_PORT"),
    PortDefinition(9000, "Admin Panel Fake 2", "Admin Panel (fake)", "admin", "ADMIN_PANEL_FAKE_PORT_2"),
    PortDefinition(21, "FTP", "FTP Server", "file", "FTP_PORT"),
    PortDefinition(23, "Telnet", "Telnet Server", "remote", "TELNET_PORT"),
    PortDefinition(3389, "RDP Fake", "RDP (fake honeypot)", "remote", "RDP_FAKE_PORT"),
    PortDefinition(5900, "VNC", "VNC Server", "remote", "VNC_PORT"),
    PortDefinition(1433, "MSSQL Fake", "MSSQL (fake honeypot)", "database", "MSSQL_FAKE_PORT"),
    PortDefinition(1521, "Oracle Fake", "Oracle (fake honeypot)", "database", "ORACLE_FAKE_PORT"),
    PortDefinition(5433, "PostgreSQL Alt Fake", "PostgreSQL Alternative (fake)", "database", "POSTGRES_ALT_FAKE_PORT"),
    PortDefinition(11211, "Memcached Fake", "Memcached (fake)", "cache", "MEMCACHED_FAKE_PORT"),
    PortDefinition(27018, "MongoDB Shard Fake", "MongoDB Shard (fake)", "database", "MONGODB_SHARD_FAKE_PORT"),
    PortDefinition(9200, "Elasticsearch Fake", "Elasticsearch (fake)", "admin", "ELASTICSEARCH_FAKE_PORT"),
    PortDefinition(5601, "Kibana Fake", "Kibana (fake)", "admin", "KIBANA_FAKE_PORT"),
    PortDefinition(3000, "Node.js Fake", "Node.js (fake)", "application", "NODEJS_FAKE_PORT"),
    PortDefinition(5000, "Flask Fake", "Flask (fake)", "application", "FLASK_FAKE_PORT"),
    PortDefinition(8000, "Django Fake", "Django (fake)", "application", "DJANGO_FAKE_PORT"),
    PortDefinition(8888, "Jupyter Fake", "Jupyter (fake)", "application", "JUPYTER_FAKE_PORT")
  ]
}
