/** The connector factory: picks the connector class for a source's provider
    and hands it the source's (already decrypted) credentials. */
module EmailProviderFactory {
  import opened Wrappers
  import opened IngestionTypes

  /** The wire name of each provider, as stored in the `provider` column. */
  function ProviderTag(p: Provider): string {
    match p
    case GoogleWorkspace => "google_workspace"
    case Microsoft365 => "microsoft_365"
    case GenericImap => "generic_imap"
    case PstImport => "pst_import"
    case EmlImport => "eml_import"
    case MboxImport => "mbox_import"
  }

  /** Reads a wire name back; any other string names no provider. */
  function ParseProvider(tag: string): (r: Option<Provider>)
    ensures r.Some? ==> ProviderTag(r.value) == tag
  {
    if tag == "google_workspace" then Some(GoogleWorkspace)
    else if tag == "microsoft_365" then Some(Microsoft365)
    else if tag == "generic_imap" then Some(GenericImap)
    else if tag == "pst_import" then Some(PstImport)
    else if tag == "eml_import" then Some(EmlImport)
    else if tag == "mbox_import" then Some(MboxImport)
    else None
  }

  /** Every provider's wire name is read back as that provider, so distinct
      providers have distinct wire names. */
  lemma ParseProviderTag(p: Provider)
    ensures ParseProvider(ProviderTag(p)) == Some(p)
  {
  }

  /** The six connectors, each holding the credentials it was built with. */
  datatype Connector =
    | GoogleWorkspaceConnector(credentials: Credentials)
    | MicrosoftConnector(credentials: Credentials)
    | ImapConnector(credentials: Credentials)
    | PstConnector(credentials: Credentials)
    | EmlConnector(credentials: Credentials)
    | MboxConnector(credentials: Credentials)
  {
    /** The provider a connector serves. */
    function Serves(): Provider {
      match this
      case GoogleWorkspaceConnector(_) => GoogleWorkspace
      case MicrosoftConnector(_) => Microsoft365
      case ImapConnector(_) => GenericImap
      case PstConnector(_) => PstImport
      case EmlConnector(_) => EmlImport
      case MboxConnector(_) => MboxImport
    }
  }

  function ConnectorFor(p: Provider, credentials: Credentials): Connector {
    match p
    case GoogleWorkspace => GoogleWorkspaceConnector(credentials)
    case Microsoft365 => MicrosoftConnector(credentials)
    case GenericImap => ImapConnector(credentials)
    case PstImport => PstConnector(credentials)
    case EmlImport => EmlConnector(credentials)
    case MboxImport => MboxConnector(credentials)
  }

  /** `createConnector`: a known provider gets the connector serving it, with
      the credentials unchanged; an unknown one is rejected by name. */
  function CreateConnector(provider: string, credentials: Credentials): (r: Result<Connector>)
    ensures r.Ok? <==> ParseProvider(provider).Some?
    ensures r.Ok? ==> ProviderTag(r.value.Serves()) == provider && r.value.credentials == credentials
    ensures r.Err? ==> r.error == "Unsupported provider: " + provider
  {
    match ParseProvider(provider)
    case Some(p) => Ok(ConnectorFor(p, credentials))
    case None => Err("Unsupported provider: " + provider)
  }

  /** Every stored source gets a connector serving its own provider. */
  lemma SourceGetsItsConnector(source: IngestionSource)
    ensures CreateConnector(ProviderTag(source.provider), source.credentials).Ok?
    ensures CreateConnector(ProviderTag(source.provider), source.credentials).value.Serves() == source.provider
  {
    ParseProviderTag(source.provider);
  }

  /** Two different provider tags that both name a provider get connectors
      of different kinds. */
  lemma DistinctTagsDistinctConnectors(t1: string, t2: string, c1: Credentials, c2: Credentials)
    requires t1 != t2
    requires CreateConnector(t1, c1).Ok? && CreateConnector(t2, c2).Ok?
    ensures CreateConnector(t1, c1).value.Serves() != CreateConnector(t2, c2).value.Serves()
  {
    var p1, p2 := CreateConnector(t1, c1).value.Serves(), CreateConnector(t2, c2).value.Serves();
    assert ProviderTag(p1) == t1 && ProviderTag(p2) == t2;
  }
}
