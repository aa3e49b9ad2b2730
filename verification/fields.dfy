/** The names of the contact form's controls, which are also the keys of the JSON body
    the form posts to the server. */
module Fields {

  datatype Field = FirstName | LastName | Email | Phone | Country | Program | Message | Newsletter | Privacy

}
