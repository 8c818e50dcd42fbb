/**
 * Normalising the caller's address before it is written to the audit log: the IPv6 loopback
 * becomes the IPv4 loopback, an IPv4-mapped IPv6 address (section 2.5.5.2 of RFC 4291) loses its
 * `::ffff:` prefix, and a missing address is recorded as "Unknown".
 */
module IpUtils {
  import opened Wrappers
  import opened Text

  const MappedPrefix: string := "::ffff:"

  /** `normalizeIp(ip)` */
  function NormalizeIp(ip: Option<string>): (r: string)
    ensures Falsy(ip) ==> r == "Unknown"
    ensures !Falsy(ip) && ip.value == "::1" ==> r == "127.0.0.1"
    ensures !Falsy(ip) && ip.value != "::1" && StartsWith(ip.value, MappedPrefix) ==> MappedPrefix + r == ip.value
    ensures !Falsy(ip) && ip.value != "::1" && !StartsWith(ip.value, MappedPrefix) ==> r == ip.value
  {
    if Falsy(ip) then "Unknown"
    else if ip.value == "::1" then "127.0.0.1"
    else if StartsWith(ip.value, MappedPrefix) then ip.value[7..]
    else ip.value
  }

  /** The embedded IPv4 literal of any mapped address is recovered exactly. */
  lemma MappedAddressUnwrapped(addr: string)
    ensures NormalizeIp(Some(MappedPrefix + addr)) == addr
  {
    var ip := MappedPrefix + addr;
    assert ip[..7] == MappedPrefix;
    assert ip != "::1" by { assert |ip| >= 7; }
    assert ip[7..] == addr;
  }

  /** The result is the input, one of the two fixed answers, or the input without its mapped prefix. */
  lemma NormalizeIpShape(ip: Option<string>)
    ensures var r := NormalizeIp(ip);
      r == "Unknown" || r == "127.0.0.1" || (ip.Some? && (r == ip.value || MappedPrefix + r == ip.value))
  {
  }

  /** "Unknown" is recorded exactly for a missing address and for the two inputs that spell it. */
  lemma UnknownIff(ip: Option<string>)
    ensures NormalizeIp(ip) == "Unknown" <==>
      Falsy(ip) || ip.value == "Unknown" || ip.value == MappedPrefix + "Unknown"
  {
    if !Falsy(ip) {
      var s := ip.value;
      if s == MappedPrefix + "Unknown" {
        MappedAddressUnwrapped("Unknown");
      } else if s != "::1" && StartsWith(s, MappedPrefix) {
        assert s == MappedPrefix + s[7..];
        assert s[0] == ':' && s[7..] != "Unknown";
      } else if s == "Unknown" {
        assert !StartsWith(s, MappedPrefix) by { assert s[0] != ':'; }
      }
    }
  }

  /** The IPv4 loopback is recorded for its three spellings and nothing else. */
  lemma LoopbackIff(ip: Option<string>)
    ensures NormalizeIp(ip) == "127.0.0.1" <==>
      !Falsy(ip) && (ip.value == "::1" || ip.value == "127.0.0.1" || ip.value == MappedPrefix + "127.0.0.1")
  {
    if !Falsy(ip) {
      var s := ip.value;
      if s == MappedPrefix + "127.0.0.1" {
        MappedAddressUnwrapped("127.0.0.1");
      } else if s != "::1" && StartsWith(s, MappedPrefix) {
        assert s == MappedPrefix + s[7..];
        assert s[0] == ':' && s[7..] != "127.0.0.1";
      } else if s == "127.0.0.1" {
        assert !StartsWith(s, MappedPrefix) by { assert s[0] != ':'; }
      }
    }
  }
}
