/** The input record of the algorithm register (`AlgoritmeregisterRecord`): one row of the
    register, every column an optional text value. Only the columns that the conversion reads
    are kept; they appear in the order in which the record declares them. */
module Register {
  import opened Options

  type Text = Option<string>

  datatype Record = Record(
    name: Text,
    organization: Text,
    description_short: Text,
    category: Text,
    website: Text,
    status: Text,
    goal: Text,
    proportionality: Text,
    lawful_basis: Text,
    standard_version: Text,
    url: Text,
    contact_email: Text,
    publiccode: Text,
    source_data: Text,
    methods_and_models: Text,
    human_intervention: Text,
    risks: Text,
    provider: Text,
    tags: Text,
    begin_date: Text,
    end_date: Text,
    impacttoetsen: Text,
    source_data_link: Text,
    process_index_url: Text,
    publication_category: Text,
    lawful_basis_grouping: Text,
    impacttoetsen_grouping: Text
  )
}
