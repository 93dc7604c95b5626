/**
 * The XDP program as it runs: host byte order, in-place edits of the frame and of its maps
 * (internal/ebpf/programs/phantom.c). Every method is proved against Gate's specification, so the
 * verdict, the maps and every byte of the frame are the same on big- and little-endian hosts.
 */
module GateProgram {
  import opened Bytes
  import opened Checksum
  import Gate
  import GateMeaning

  datatype Endian = Big | Little

  /** bpf_htons and bpf_ntohs. */
  function HostNet(e: Endian, w: u16): u16 {
    if e.Big? then w else Swap(w)
  }

  /** The value of a __be16 field as the host's load instruction sees it. */
  function Load(e: Endian, first: byte, second: byte): (w: u16)
    ensures w == HostNet(e, Word(first, second))
  {
    WordBytes(first, second);
    if e.Big? then Word(first, second) else Word(second, first)
  }

  lemma HostNetInjective(e: Endian, v: u16, w: u16)
    ensures HostNet(e, v) == HostNet(e, w) <==> v == w
    ensures HostNet(e, HostNet(e, w)) == w
  {
    SwapTwice(v);
    SwapTwice(w);
  }

  class XdpProgram {
    const endian: Endian
    const ports: Gate.PortTable
    var spaWhitelist: map<u32, u64>
    var attackStats: u64
    var stealthDrops: u64
    var osMutations: u64
    var spaAuthSuccess: u64

    constructor (endian: Endian, ports: Gate.PortTable)
      ensures this.endian == endian && this.ports == ports
      ensures Contents() == Gate.State(map[], 0, 0, 0, 0)
    {
      this.endian, this.ports := endian, ports;
      spaWhitelist := map[];
      attackStats, stealthDrops, osMutations, spaAuthSuccess := 0, 0, 0, 0;
    }

    ghost function Contents(): Gate.State
      reads this
    {
      Gate.State(spaWhitelist, attackStats, stealthDrops, osMutations, spaAuthSuccess)
    }

    /** Stores a host-order word into a network-order field. */
    method StoreField(data: array<byte>, k: nat, w: u16)
      requires k + 1 < data.Length
      modifies data
      ensures data[..] == PutWord(old(data[..]), k, HostNet(endian, w))
    {
      HostNetInjective(endian, w, w);
      if endian.Big? {
        data[k], data[k + 1] := w / 256, w % 256;
      } else {
        WordBytes(w % 256, w / 256);
        data[k], data[k + 1] := w % 256, w / 256;
      }
    }

    /** csum_replace2 on the field at offset k; both words are in host order, as loaded. */
    method ReplaceChecksum(data: array<byte>, k: nat, oldVal: u16, newVal: u16)
      requires k + 1 < data.Length
      modifies data
      ensures data[..] == PutWord(old(data[..]), k,
                                  CsumReplace2(GetWord(old(data[..]), k), HostNet(endian, oldVal),
                                               HostNet(endian, newVal)))
    {
      hide CsumReplace2;
      var sum := Load(endian, data[k], data[k + 1]);
      assert sum == HostNet(endian, GetWord(data[..], k));
      var updated := Update(sum, oldVal, newVal);
      UpdatedInNetworkOrder(GetWord(data[..], k), oldVal, newVal);
      StoreField(data, k, updated);
    }

    /** The arithmetic of csum_replace2, on host-order words. */
    method Update(sum: u16, oldVal: u16, newVal: u16) returns (updated: u16)
      ensures updated == CsumReplace2(sum, oldVal, newVal)
    {
      var csum: u32 := 0xFFFF - sum;
      csum := csum + (0xFFFF - oldVal) + newVal;
      ghost var start := csum;
      csum := csum % 0x1_0000 + csum / 0x1_0000;
      assert csum == Fold(start);
      csum := csum % 0x1_0000 + csum / 0x1_0000;
      assert csum == Fold(Fold(start));
      return 0xFFFF - csum % 0x1_0000;
    }

    lemma UpdatedInNetworkOrder(check: u16, oldVal: u16, newVal: u16)
      ensures HostNet(endian, CsumReplace2(HostNet(endian, check), oldVal, newVal))
              == CsumReplace2(check, HostNet(endian, oldVal), HostNet(endian, newVal))
    {
      if endian.Little? {
        SwapReplace(check, Swap(oldVal), Swap(newVal));
        SwapTwice(oldVal);
        SwapTwice(newVal);
        SwapTwice(CsumReplace2(check, Swap(oldVal), Swap(newVal)));
      }
    }

    /** mutate_os_personality. */
    method MutateOsPersonality(data: array<byte>)
      requires data.Length >= 54
      modifies data, `osMutations
      ensures var p := Gate.PersonalityOf(GetWord(old(data[..]), 34));
              data[..] == Gate.MutateWindow(Gate.MutateTtl(old(data[..]), p.ttl), p.window)
      ensures osMutations == Wrap64(old(osMutations) + 1)
    {
      HostNetInjective(endian, 0, Word(data[34], data[35]));
      var srcPort := HostNet(endian, Load(endian, data[34], data[35]));
      assert srcPort == GetWord(data[..], 34);
      var oldTtl: byte := data[22];
      var oldWindow := Load(endian, data[48], data[49]);
      var newTtl, hostWindow := ChoosePersonality(srcPort);
      var newWindow := HostNet(endian, hostWindow);
      ghost var f := data[..];
      MutateTtl(data, oldTtl, newTtl);
      assert GetWord(data[..], 48) == GetWord(f, 48);
      MutateWindow(data, oldWindow, newWindow, hostWindow);
      osMutations := Wrap64(osMutations + 1);
    }

    /** The switch over the low bits of the source port. */
    method ChoosePersonality(srcPort: u16) returns (ttl: byte, window: u16)
      ensures Gate.Personality(ttl, window) == Gate.PersonalityOf(srcPort)
    {
      var osType := srcPort % 4;
      if osType == 0 {
        ttl, window := 128, 65535;
      } else if osType == 1 {
        ttl, window := 64, 29200;
      } else if osType == 2 {
        ttl, window := 64, 65535;
      } else {
        ttl, window := 255, 29200;
      }
    }

    method MutateTtl(data: array<byte>, oldTtl: byte, newTtl: byte)
      requires data.Length >= 54 && oldTtl == data[22]
      modifies data
      ensures data[..] == Gate.MutateTtl(old(data[..]), newTtl)
      ensures forall i :: 34 <= i < data.Length ==> data[i] == old(data[i])
    {
      if oldTtl != newTtl {
        ghost var f := data[..];
        // the protocol byte is not part of these words
        var oldWord := HostNet(endian, 256 * oldTtl);
        var newWord := HostNet(endian, 256 * newTtl);
        ReplaceChecksumNet(data, 24, oldWord, newWord, Word(oldTtl, 0), Word(newTtl, 0));
        WordBytes(newTtl, data[23]);
        ghost var g := data[..];
        data[22] := newTtl;
        assert data[..] == PutWord(g, 22, Word(newTtl, f[23]));
      }
    }

    /** csum_replace2 with the network-order values of the two host-order words given alongside. */
    method ReplaceChecksumNet(data: array<byte>, k: nat, oldVal: u16, newVal: u16, ghost oldNet: u16, ghost newNet: u16)
      requires k + 1 < data.Length
      requires oldVal == HostNet(endian, oldNet) && newVal == HostNet(endian, newNet)
      modifies data
      ensures data[..] == PutWord(old(data[..]), k, CsumReplace2(GetWord(old(data[..]), k), oldNet, newNet))
    {
      HostNetInjective(endian, oldNet, newNet);
      HostNetInjective(endian, newNet, oldNet);
      ReplaceChecksum(data, k, oldVal, newVal);
    }

    /** The pair of stores every edit of a segment word makes: checksum first, then the word. */
    method EditSegmentWord(data: array<byte>, j: nat, oldVal: u16, newVal: u16, ghost newNet: u16)
      requires data.Length >= 54 && 34 <= j < 50
      requires oldVal == HostNet(endian, GetWord(data[..], j)) && newVal == HostNet(endian, newNet)
      modifies data
      ensures data[..] == Edited(old(data[..]), 50, j, newNet, GetWord(old(data[..]), j), newNet)
    {
      ReplaceChecksumNet(data, 50, oldVal, newVal, GetWord(data[..], j), newNet);
      HostNetInjective(endian, newNet, newNet);
      StoreField(data, j, newVal);
    }

    method MutateWindow(data: array<byte>, oldWindow: u16, newWindow: u16, ghost newNet: u16)
      requires data.Length >= 54
      requires oldWindow == HostNet(endian, GetWord(data[..], 48)) && newWindow == HostNet(endian, newNet)
      modifies data
      ensures data[..] == Gate.MutateWindow(old(data[..]), newNet)
    {
      HostNetInjective(endian, GetWord(data[..], 48), newNet);
      if oldWindow != newWindow {
        EditSegmentWord(data, 48, oldWindow, newWindow, newNet);
      }
    }

    /** is_spa_whitelisted: an expired entry is deleted on the way. */
    method IsSpaWhitelisted(srcIp: u32, now: u64) returns (r: bool)
      modifies `spaWhitelist
      ensures r == Gate.Whitelisted(old(Contents()), srcIp, now)
      ensures Contents() == Gate.LookedUp(old(Contents()), srcIp, now)
    {
      if srcIp !in spaWhitelist {
        return false;
      }
      if now > spaWhitelist[srcIp] {
        spaWhitelist := map a | a in spaWhitelist && a != srcIp :: spaWhitelist[a];
        return false;
      }
      return true;
    }

    /** spa_whitelist_ip. */
    method SpaWhitelistIp(srcIp: u32, now: u64)
      modifies `spaWhitelist, `spaAuthSuccess
      ensures Contents() == Gate.PutExpiry(old(Contents()), srcIp, Gate.TokenExpiry(now))
                                .(authSuccess := Wrap64(old(spaAuthSuccess) + 1))
    {
      var expiry := Wrap64(now + Gate.SPA_WHITELIST_DURATION_NS);
      spaWhitelist := spaWhitelist[srcIp := expiry];
      spaAuthSuccess := Wrap64(spaAuthSuccess + 1);
    }

    /** verify_magic_packet: the differences of all token bytes are collected before deciding. */
    method VerifyMagicPacket(data: array<byte>) returns (r: bool)
      requires data.Length >= 42
      ensures r <==> data.Length >= 42 + Gate.SPA_TOKEN_LEN
                     && data[42..42 + Gate.SPA_TOKEN_LEN] == Gate.SPA_SECRET_TOKEN
    {
      if 42 + Gate.SPA_TOKEN_LEN > data.Length {
        return false;
      }
      var token := Gate.SPA_SECRET_TOKEN;
      var diff: nat := 0;
      for i := 0 to Gate.SPA_TOKEN_LEN
        invariant diff == 0 <==> forall j :: 0 <= j < i ==> data[42 + j] == token[j]
      {
        XorIsZero(data[42 + i], token[i]);
        OrIsZero(diff, Xor(data[42 + i], token[i]));
        diff := Or(diff, Xor(data[42 + i], token[i]));
      }
      var payload := data[42..42 + Gate.SPA_TOKEN_LEN];
      assert forall j :: 0 <= j < |payload| ==> payload[j] == data[42 + j];
      r := diff == 0;
    }

    /** phantom_prog: one frame. */
    method PhantomProg(data: array<byte>, now: u64) returns (verdict: Gate.Verdict)
      modifies this, data
      ensures Gate.Outcome(Contents(), data[..], verdict) == Gate.Step(ports, old(Contents()), old(data[..]), now)
      ensures verdict.Drop? <==> GateMeaning.Dropped(ports, old(spaWhitelist), old(data[..]), now)
      ensures GateMeaning.Effect(ports, old(Contents()), old(data[..]), now,
                                 Gate.Outcome(Contents(), data[..], verdict))
    {
      ghost var f := data[..];
      GateMeaning.DropMeaning(ports, Contents(), f, now);
      hide GateMeaning.Effect, GateMeaning.Dropped;
      if data.Length < 14 {
        return Gate.Pass;
      }
      HostNetInjective(endian, Word(data[12], data[13]), 0x0800);
      if Load(endian, data[12], data[13]) != HostNet(endian, 0x0800) || data.Length < 34 {
        return Gate.Pass;
      }
      assert Gate.IsIPv4(f);
      Gate.SourceInRange(f);
      var srcIp: u32 := Value(data[26..30]);
      assert srcIp == Gate.Source(f) by {
        assert data[26..30] == f[26..30];
      }
      var protocol := data[23];
      if protocol == 1 {
        return Gate.Pass;
      }
      if protocol == 17 {
        if data.Length < 42 {
          return Gate.Pass;
        }
        HostNetInjective(endian, Word(data[36], data[37]), Gate.SPA_MAGIC_PORT);
        if Load(endian, data[36], data[37]) == HostNet(endian, Gate.SPA_MAGIC_PORT) {
          var matches := VerifyMagicPacket(data);
          assert matches ==> data[42..63] == f[42..63];
          if matches {
            SpaWhitelistIp(srcIp, now);
            return Gate.Drop;
          }
        }
        return Gate.Pass;
      }
      if protocol == 6 {
        if data.Length < 54 {
          return Gate.Pass;
        }
        verdict := TcpLogic(data, srcIp, now);
        return;
      }
      return Gate.Pass;
    }

    /** The TCP branch of phantom_prog. */
    method TcpLogic(data: array<byte>, srcIp: u32, now: u64) returns (verdict: Gate.Verdict)
      requires Gate.IsTcp(data[..]) && srcIp == Gate.Source(data[..])
      modifies this, data
      ensures Gate.Outcome(Contents(), data[..], verdict) == Gate.Step(ports, old(Contents()), old(data[..]), now)
    {
      hide HostNet, Gate.Redirect, Gate.TokenExpiry, Value;
      ghost var f := data[..];
      var dest := Load(endian, data[36], data[37]);
      HostNetInjective(endian, Gate.DestPort(f), Gate.HONEYPOT_PORT);
      HostNetInjective(endian, Gate.DestPort(f), Gate.DestPort(f));
      if dest == HostNet(endian, Gate.HONEYPOT_PORT) {
        return Gate.Pass;
      }
      if HostNet(endian, dest) in ports.critical {
        var whitelisted := IsSpaWhitelisted(srcIp, now);
        if !whitelisted {
          return Gate.Drop;
        }
        return Gate.Pass;
      }
      if HostNet(endian, dest) in ports.fake {
        attackStats := Wrap64(attackStats + 1);
        return Gate.Pass;
      }
      if Gate.IsStealthScan(data[47]) {
        stealthDrops := Wrap64(stealthDrops + 1);
        return Gate.Drop;
      }
      attackStats := Wrap64(attackStats + 1);
      RedirectToHoneypot(data, dest);
      return Gate.Pass;
    }

    /** The redirect: destination port first, then the OS personality. */
    method RedirectToHoneypot(data: array<byte>, oldPort: u16)
      requires data.Length >= 54 && oldPort == HostNet(endian, Word(data[36], data[37]))
      modifies data, `osMutations
      ensures data[..] == Gate.Redirect(old(data[..]))
      ensures osMutations == Wrap64(old(osMutations) + 1)
    {
      ghost var f := data[..];
      RedirectDestination(data, oldPort);
      Gate.RedirectPortKeepsSource(f);
      MutateOsPersonality(data);
    }

    method RedirectDestination(data: array<byte>, oldPort: u16)
      requires data.Length >= 54 && oldPort == HostNet(endian, Word(data[36], data[37]))
      modifies data
      ensures data[..] == Gate.RedirectPort(old(data[..]))
    {
      var newPort := HostNet(endian, Gate.HONEYPOT_PORT);
      EditSegmentWord(data, 36, oldPort, newPort, Gate.HONEYPOT_PORT);
    }
  }
}
