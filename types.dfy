/**
 * The records of `types.ts` that the screens and the data hook exchange.
 * Fields absent from a JSON record are modelled as the empty string, except
 * where the code tests for absence (`node_id`, `is_rfp`).
 */
module Types {
  import opened Options
  import Loose

  datatype Center = Center(center_id: string, center_name: string)

  datatype Contact = Contact(
    id: int, name: string, title: string, position: string, center_id: string,
    email: string, phone: string, address: string, fax: string, photo: string)

  /** A contact as published: `base` is the contact with `photo` rewritten. */
  datatype ProcessedContact = ProcessedContact(
    base: Contact, center: string, associatedContracts: seq<Contract>)

  datatype ContractType = ContractType(id: int, name: string)

  datatype AclRfp = AclRfp(id: int, name: string)

  datatype DashboardItem = DashboardItem(
    title: string, image_url: string, link: string, weight: int, tid: string,
    use_icon: int, node_id: Option<string>)

  /** The `{ title, body }` pair stored in the node-content lookup. */
  datatype NodeBody = NodeBody(title: string, body: string)

  datatype Screen =
    | Dashboard | Contracts | Contacts | Events | TopStories
    | Bookmarks | NaicsSearch | Forecasts | Settings | Nvdb

  datatype ProcessedDashboardItem = ProcessedDashboardItem(
    title: string, imageUrl: string, screen: Option<Screen>, content: Option<NodeBody>)

  datatype Event = Event(id: int, title: string, date: string, location: string, description: string)

  datatype TopStory = TopStory(id: int, nid: int, title: string, summary: string, imageUrl: string)

  datatype ProcessedTopStory = ProcessedTopStory(story: TopStory, body: string)

  datatype Contract = Contract(
    id: int, contract_name: string, contract_number: string, naics: string,
    type_of_competition: string, contractor_name: string, potential_value: string,
    effective_date: string, ultimate_contract_end_date: string, contract_type: string,
    center: string, is_rfp: Option<bool>)

  datatype NodeContent = NodeContent(id: int, nid: int, title: string, body: string)

  datatype AllData = AllData(
    centers: seq<Center>, contacts: seq<Contact>, contractTypes: seq<ContractType>,
    aclRfp: seq<AclRfp>, dashboard: seq<DashboardItem>, events: seq<Event>,
    topStories: seq<TopStory>, contracts: seq<Contract>, nodeContent: seq<NodeContent>)

  /**
   * The published data set: the raw collections (with `dashboard` already
   * sorted in place) next to the processed ones.
   */
  datatype ProcessedData = ProcessedData(
    all: AllData,
    processedContacts: seq<ProcessedContact>,
    processedContracts: seq<Contract>,
    processedTopStories: seq<ProcessedTopStory>,
    processedDashboard: seq<ProcessedDashboardItem>,
    forecasts: seq<Loose.Row>)
}
