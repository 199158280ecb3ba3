/** What nmap reports, as the scanner and the importer read it. */
module NmapOutput {
  datatype NmapPort = NmapPort(port: int, service: string, banner: string, product: string, version: string)

  datatype NmapHost = NmapHost(ip: string, mac: string, hostname: string, vendor: string, ports: seq<NmapPort>)
}
