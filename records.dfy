/** The subnet record read from the Azure resource graph, and the report row built
    from it.

    The three record declarations of the source (the current one and two legacy
    copies) share one datatype here. The copy of `subnet_struct.rs` has the same fields,
    and the walk of `subnet_add_row.rs` reads its count of IP configurations; only the
    copy of `struct_subnet.rs`, used by `print_subnets.rs`, has no such count, and its
    walk never reads the field. */
module Records {
  import opened Results
  import opened Ipv4Cidr

  /** One subnet of one virtual network. */
  datatype Subnet = Subnet(
    vnetName: string,
    vnetCidr: seq<Ipv4>,
    subnetName: string,
    subnetCidr: Option<Ipv4>,
    nsg: Option<string>,
    location: string,
    dnsServers: Option<seq<string>>,
    subscriptionId: string,
    subscriptionName: string,
    ipConfigurationsCount: Option<nat>,
    gap: Option<string>,
    srcIndex: nat,
    blockId: nat)

  /** `Default for Subnet`. */
  function DefaultSubnet(): (s: Subnet)
    ensures s.subnetCidr.None? && s.vnetCidr == [] && s.gap == Some("blank")
  {
    Subnet("blank", [], "", None, None, "blank", None, "blank", "blank", None, Some("blank"), 0, 0)
  }

  /** One line of the address-space report: a real subnet or a gap between two. */
  datatype Row = Row(
    j: nat,
    gap: string,
    subnetCidr: string,
    broadcast: string,
    azHosts: nat,
    subnetName: string,
    subscriptionName: string,
    vnetCidr: string,
    vnetName: string,
    location: string,
    nsg: string,
    dns: string,
    subscriptionId: string,
    ipConfigurationsCount: nat)

  // ----- the keys records are compared and grouped by -----

  /** Duplicates are judged by block and subscription id. */
  function CidrSubscription(s: Subnet): (Option<Ipv4>, string) {
    (s.subnetCidr, s.subscriptionId)
  }

  /** The overlap detector groups records into networks by name and subscription id. */
  function VnetSubscriptionId(s: Subnet): (string, string) {
    (s.vnetName, s.subscriptionId)
  }

  /** The network list groups records by name and subscription display name. */
  function VnetSubscriptionName(s: Subnet): (string, string) {
    (s.vnetName, s.subscriptionName)
  }

  /** The block of a record. */
  function CidrOf(s: Subnet): Option<Ipv4> {
    s.subnetCidr
  }
}
